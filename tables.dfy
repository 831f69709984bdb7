/** The two `std::vector` updates the managers' tables use, on values:
    `resize(n)` and `insert(begin() + index, x)`. */
module Tables {

  /** `v.resize(n)`: truncates to n entries, or appends value-initialised
      entries (`fill`) up to n. */
  function Resized<T>(s: seq<T>, n: nat, fill: T): (r: seq<T>)
    ensures |r| == n
    ensures forall k :: 0 <= k < n && k < |s| ==> r[k] == s[k]
    ensures forall k :: |s| <= k < n ==> r[k] == fill
  {
    if n <= |s| then s[..n] else s + seq(n - |s|, _ => fill)
  }

  /** `v.insert(v.begin() + index, x)`: x lands at `index` and every entry
      from `index` on moves one place to the right. */
  function Inserted<T>(s: seq<T>, index: nat, x: T): (r: seq<T>)
    requires index <= |s|
    ensures |r| == |s| + 1
    ensures r[index] == x
    ensures forall k :: 0 <= k < index ==> r[k] == s[k]
    ensures forall k :: index <= k < |s| ==> r[k + 1] == s[k]
  {
    s[..index] + [x] + s[index..]
  }

  /** Removing the inserted entry gives the table back. */
  lemma InsertedRemoved<T>(s: seq<T>, index: nat, x: T)
    requires index <= |s|
    ensures Inserted(s, index, x)[..index] + Inserted(s, index, x)[index + 1..] == s
  {
    var r := Inserted(s, index, x);
    assert r[..index] == s[..index];
    assert r[index + 1..] == s[index..];
    assert s[..index] + s[index..] == s;
  }
}
