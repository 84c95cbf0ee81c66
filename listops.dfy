/** Python's `list.remove(value)` on sequences: removal of the FIRST element
    equal to a value, with the `ValueError` of an absent value as `None`. */
module ListOps {

  datatype Option<+T> = None | Some(value: T)

  /** Index of the first element equal to `v`, or -1 when `v` does not occur. */
  function IndexOf<T(==)>(s: seq<T>, v: T): (k: int)
    ensures -1 <= k < |s|
    ensures k < 0 <==> v !in s
    ensures 0 <= k ==> s[k] == v && v !in s[..k]
  {
    if |s| == 0 then -1
    else if s[0] == v then 0
    else
      var k := IndexOf(s[1..], v);
      assert s[1..][..if k < 0 then 0 else k] == s[1..if k < 0 then 1 else k + 1];
      if k < 0 then -1 else k + 1
  }

  /** `s.remove(v)`: `None` models the `ValueError` raised for an absent value. */
  function RemoveFirst<T(==)>(s: seq<T>, v: T): (r: Option<seq<T>>)
    ensures r.Some? <==> v in s
    ensures r.Some? ==> |r.value| == |s| - 1
    ensures r.Some? ==> multiset(r.value) == multiset(s) - multiset{v}
  {
    var k := IndexOf(s, v);
    if k < 0 then None
    else
      assert s == s[..k] + [v] + s[k + 1..];
      Some(s[..k] + s[k + 1..])
  }

  /** Removing `v` from `p + [v] + t` takes the first `v` that is not in `p`. */
  lemma RemoveFirstAfter<T>(p: seq<T>, v: T, t: seq<T>)
    requires v !in p
    ensures RemoveFirst(p + [v] + t, v) == Some(p + t)
  {
    var s := p + [v] + t;
    var k := IndexOf(s, v);
    assert s[|p|] == v;
    assert s[..|p|] == p;
    assert s[..k] == p;
    assert s[k + 1..] == t;
  }
}
