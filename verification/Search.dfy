// One iterative search: its shortlist and the nodes it has already asked.
module Search {
  import opened Wrappers
  import opened Keys
  import opened Codec
  import opened Contacts
  import opened Closest
  import opened TextMap

  // ------------------------------------------------ specification on values

  datatype SearchType = NodeSearch | ValueSearch | StoreSearch

  datatype State = State(
    kind: SearchType,
    destination: string,
    bucketNb: nat,
    shortList: seq<Contact>,
    nodeBusy: set<string>,
    valueBusy: set<string>)

  function Fresh(source: string, destination: string, kind: SearchType): State {
    State(kind, destination, SharedBits(destination, source), [], {}, {})
  }

  // How many listed contacts share exactly `bits` leading bits with the target.
  function CountSharing(list: seq<Contact>, target: string, bits: nat): (n: nat)
    ensures n <= |list|
  {
    if list == [] then 0
    else CountSharing(list[..|list| - 1], target, bits)
          + (if SharedBits(list[|list| - 1].key, target) == bits then 1 else 0)
  }

  // The keys of the listed contacts that are not busy, in list order.
  function IdleKeys(list: seq<Contact>, busy: set<string>): seq<string> {
    if list == [] then []
    else (if list[0].key in busy then [] else [list[0].key]) + IdleKeys(list[1..], busy)
  }

  predicate BucketFull(s: State) {
    CountSharing(s.shortList, s.destination, s.bucketNb) >= BUCKET_SIZE || IdleKeys(s.shortList, s.nodeBusy) == []
  }

  function Updated(s: State, lc: seq<Contact>): State {
    s.(shortList := Merge(DistanceTo(s.destination), BUCKET_SIZE, s.shortList, lc))
  }

  // What `update_list` returns: a nonempty batch that changes nothing also ends the search.
  predicate UpdateEnds(s: State, lc: seq<Contact>) {
    (lc != [] && s.shortList != [] && Updated(s, lc) == s) || BucketFull(Updated(s, lc))
  }

  // ------------------------------------------------------------- the class

  class Search {
    var shortList: seq<Contact>
    var mapNodeBusy: map<string, bool>
    var mapValueBusy: map<string, bool>
    var destination: string
    var bucketNb: nat
    var searchType: SearchType

    function Model(): State
      reads this
    {
      State(searchType, destination, bucketNb, shortList, mapNodeBusy.Keys, mapValueBusy.Keys)
    }

    constructor (source: string, destination: string, kind: SearchType)
      ensures Model() == Fresh(source, destination, kind)
    {
      searchType := kind;
      this.destination := destination;
      shortList := [];
      mapNodeBusy := map[];
      mapValueBusy := map[];
      new;
      bucketNb := CountCommonBits(StringToKey(destination), StringToKey(source));
    }

    method IsNodeFull() returns (full: bool)
      ensures full <==> IdleKeys(shortList, mapNodeBusy.Keys) == []
    {
      for i := 0 to |shortList|
        invariant IdleKeys(shortList[i..], mapNodeBusy.Keys) == IdleKeys(shortList, mapNodeBusy.Keys)
      {
        if shortList[i].key !in mapNodeBusy { return false; }
      }
      return true;
    }

    method IsValueFull() returns (full: bool)
      ensures full <==> IdleKeys(shortList, mapValueBusy.Keys) == []
    {
      for i := 0 to |shortList|
        invariant IdleKeys(shortList[i..], mapValueBusy.Keys) == IdleKeys(shortList, mapValueBusy.Keys)
      {
        if shortList[i].key !in mapValueBusy { return false; }
      }
      return true;
    }

    method ShortListInBucket() returns (nb: nat)
      ensures nb == CountSharing(shortList, destination, bucketNb)
    {
      nb := 0;
      for i := 0 to |shortList|
        invariant nb == CountSharing(shortList[..i], destination, bucketNb)
      {
        assert shortList[..i + 1][..i] == shortList[..i];
        var shared := CountCommonBits(StringToKey(shortList[i].key), StringToKey(destination));
        if shared == bucketNb { nb := nb + 1; }
      }
      assert shortList[..|shortList|] == shortList;
    }

    method IsBucketFull() returns (full: bool)
      ensures full <==> BucketFull(Model())
    {
      var nb := ShortListInBucket();
      if nb >= BUCKET_SIZE { return true; }
      full := IsNodeFull();
    }

    // `None` stands for the exception thrown when every listed node is busy.
    method GetNodeKey() returns (key: Option<string>)
      modifies this`mapNodeBusy
      ensures var idle := old(IdleKeys(shortList, mapNodeBusy.Keys));
              if idle == [] then key == None && mapNodeBusy == old(mapNodeBusy)
              else key == Some(idle[0]) && mapNodeBusy.Keys == old(mapNodeBusy.Keys) + {idle[0]}
    {
      for i := 0 to |shortList|
        invariant mapNodeBusy == old(mapNodeBusy)
        invariant IdleKeys(shortList[i..], mapNodeBusy.Keys) == IdleKeys(shortList, mapNodeBusy.Keys)
      {
        if shortList[i].key !in mapNodeBusy {
          mapNodeBusy := mapNodeBusy[shortList[i].key := true];
          return Some(shortList[i].key);
        }
      }
      return None;
    }

    method GetValueKey() returns (key: Option<string>)
      modifies this`mapValueBusy
      ensures var idle := old(IdleKeys(shortList, mapValueBusy.Keys));
              if idle == [] then key == None && mapValueBusy == old(mapValueBusy)
              else key == Some(idle[0]) && mapValueBusy.Keys == old(mapValueBusy.Keys) + {idle[0]}
    {
      for i := 0 to |shortList|
        invariant mapValueBusy == old(mapValueBusy)
        invariant IdleKeys(shortList[i..], mapValueBusy.Keys) == IdleKeys(shortList, mapValueBusy.Keys)
      {
        if shortList[i].key !in mapValueBusy {
          mapValueBusy := mapValueBusy[shortList[i].key := true];
          return Some(shortList[i].key);
        }
      }
      return None;
    }

    method UpdateList(lc: seq<Contact>) returns (ends: bool)
      modifies this`shortList
      ensures Model() == Updated(old(Model()), lc)
      ensures ends <==> UpdateEnds(old(Model()), lc)
    {
      if |lc| == 0 {
        ends := IsBucketFull();
        return;
      }
      var mapSorted := AssignAll([], [], lc, destination);
      mapSorted := AssignAll(mapSorted, PutAll(DistanceTo(destination), [], lc), shortList, destination);
      var temp := FirstContacts(mapSorted, Combined(DistanceTo(destination), shortList, lc), destination);
      assert temp == Updated(Model(), lc).shortList;
      if |shortList| != 0 && shortList == temp { return true; }
      shortList := temp;
      ends := IsBucketFull();
    }
  }

  // One pass `map_sorted[distance] = contact` over a list.
  method AssignAll(m: seq<(string, Contact)>, ghost s: seq<Contact>, cs: seq<Contact>, target: string)
    returns (r: seq<(string, Contact)>)
    requires Prints(m, s, target)
    ensures Prints(r, PutAll(DistanceTo(target), s, cs), target)
  {
    r := m;
    for i := 0 to |cs|
      invariant Prints(r, PutAll(DistanceTo(target), s, cs[..i]), target)
    {
      assert cs[..i + 1][..i] == cs[..i];
      TextPutIsPut(r, PutAll(DistanceTo(target), s, cs[..i]), cs[i], target);
      r := TextPut(r, DistanceText(cs[i].key, target), cs[i]);
    }
    assert cs[..|cs|] == cs;
  }

  method FirstContacts(m: seq<(string, Contact)>, ghost s: seq<Contact>, target: string) returns (temp: seq<Contact>)
    requires Prints(m, s, target)
    ensures temp == Take(s, BUCKET_SIZE)
  {
    temp := [];
    for i := 0 to |m|
      invariant i < BUCKET_SIZE && temp == s[..i]
    {
      temp := temp + [m[i].1];
      if |temp| >= BUCKET_SIZE { break; }
    }
  }

  // -------------------------------------------- the map keyed by bit strings

  function DistanceText(key: string, target: string): string {
    BitText(Xor(StringToKey(key), StringToKey(target)))
  }

  // The program's map, keyed by printed distances, lists the contacts of s in order.
  ghost predicate Prints(m: seq<(string, Contact)>, s: seq<Contact>, target: string) {
    |m| == |s| && forall i :: 0 <= i < |m| ==> m[i] == (DistanceText(s[i].key, target), s[i])
  }

  lemma DistanceTextOrder(a: string, b: string, target: string)
    ensures TextLess(DistanceText(a, target), DistanceText(b, target))
            <==> KeyDistance(a, target) < KeyDistance(b, target)
    ensures DistanceText(a, target) == DistanceText(b, target) <==> KeyDistance(a, target) == KeyDistance(b, target)
  {
    var x, y := Xor(StringToKey(a), StringToKey(target)), Xor(StringToKey(b), StringToKey(target));
    TextOrderIsNumeric(x, y);
    if BitText(x) == BitText(y) { TextInjective(x, y); }
    if Value(x) == Value(y) { ValueInjective(x, y); }
  }

  lemma PrintsCons(c: Contact, m: seq<(string, Contact)>, s: seq<Contact>, target: string)
    requires Prints(m, s, target)
    ensures Prints([(DistanceText(c.key, target), c)] + m, [c] + s, target)
  {
  }

  // Assigning under the printed distance is assigning under the distance.
  lemma {:induction false} TextPutIsPut(m: seq<(string, Contact)>, s: seq<Contact>, c: Contact, target: string)
    requires Prints(m, s, target)
    ensures Prints(TextPut(m, DistanceText(c.key, target), c), Put(DistanceTo(target), s, c), target)
  {
    if s == [] {
      PrintsCons(c, m, s, target);
    } else {
      DistanceTextOrder(c.key, s[0].key, target);
      var d, k := DistanceTo(target), DistanceText(c.key, target);
      assert Prints(m[1..], s[1..], target);
      if d(c) < d(s[0]) {
        PrintsCons(c, m, s, target);
      } else if d(c) == d(s[0]) {
        PrintsCons(c, m[1..], s[1..], target);
      } else {
        TextPutIsPut(m[1..], s[1..], c, target);
        PrintsCons(s[0], TextPut(m[1..], k, c), Put(d, s[1..], c), target);
      }
    }
  }
}
