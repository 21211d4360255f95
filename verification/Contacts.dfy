// The values that travel between nodes.
module Contacts {
  import opened Wrappers
  import opened Keys
  import opened Codec

  // Contacts per bucket, and also the length of a shortlist.
  const BUCKET_SIZE: nat := 5
  // Queries sent per reply, and also contacts per REPLY_FIND_NODE message.
  const ALPHA: nat := 3

  datatype Endpoint = Endpoint(address: string, port: string)

  datatype Contact = Contact(key: string, ep: Endpoint, time: Option<nat>)

  // The XOR distance of two keys given as text; defined for every text.
  function KeyDistance(key: string, target: string): nat {
    Distance(StringToKey(key), StringToKey(target))
  }

  // Distance of contacts to one target.
  function DistanceTo(target: string): Contact -> nat {
    (c: Contact) => KeyDistance(c.key, target)
  }

  function SharedBits(key: string, target: string): (n: nat)
    ensures n <= KEY_SIZE
  {
    CommonBits(StringToKey(key), StringToKey(target))
  }

  // Sharing more leading bits with the target means being closer to it.
  lemma MoreSharedIsCloser(target: string, near: string, far: string)
    requires SharedBits(near, target) > SharedBits(far, target)
    ensures KeyDistance(near, target) < KeyDistance(far, target)
  {
    LongerPrefixIsCloser(StringToKey(target), StringToKey(near), StringToKey(far));
  }

  // The distance identifies the point.
  lemma DistanceIsPoint(target: string, a: string, b: string)
    ensures KeyDistance(a, target) == KeyDistance(b, target) <==> StringToKey(a) == StringToKey(b)
  {
    var x, y, t := StringToKey(a), StringToKey(b), StringToKey(target);
    XorMetric(t, x, y);
    XorMetric(x, t, t);
    XorMetric(y, t, t);
  }

  // On canonical keys it identifies the key.
  lemma DistanceIdentifies(target: string, a: string, b: string)
    requires Canonical(a) && Canonical(b) && KeyDistance(a, target) == KeyDistance(b, target)
    ensures a == b
  {
    DistanceIsPoint(target, a, b);
    StringToKeyInjective(a, b);
  }

  function Elements(s: seq<Contact>): set<Contact> {
    set c | c in s
  }
}
