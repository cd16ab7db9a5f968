/** Bytes, byte strings and the contiguous-occurrence relation the scanners search for. */
module Bytes {

  /** Rust's `u8`. */
  newtype byte = x: int | 0 <= x < 256

  /** The bytes of an ASCII string, as Rust's `b"..."` literal or `str::as_bytes` gives them. */
  function Ascii(s: string): (r: seq<byte>)
    requires forall i :: 0 <= i < |s| ==> s[i] as int < 128
    ensures |r| == |s|
    ensures forall i :: 0 <= i < |s| ==> r[i] as int == s[i] as int
  {
    seq(|s|, i requires 0 <= i < |s| => s[i] as int as byte)
  }

  /** `pat` sits in `data` starting at offset `i`. */
  predicate OccursAt(pat: seq<byte>, data: seq<byte>, i: int)
  {
    0 <= i && i + |pat| <= |data| && data[i..i + |pat|] == pat
  }

  /** `pat` is a contiguous subsequence of `data`. */
  predicate Occurs(pat: seq<byte>, data: seq<byte>)
  {
    exists i | 0 <= i <= |data| - |pat| :: OccursAt(pat, data, i)
  }

  /** An occurrence in a prefix is an occurrence in the whole. */
  lemma OccursInPrefix(pat: seq<byte>, front: seq<byte>, back: seq<byte>)
    requires Occurs(pat, front)
    ensures Occurs(pat, front + back)
  {
    var i :| 0 <= i <= |front| - |pat| && OccursAt(pat, front, i);
    assert (front + back)[i..i + |pat|] == front[i..i + |pat|];
    assert OccursAt(pat, front + back, i);
  }

  /** An occurrence inside a sub-range of `data` is an occurrence in `data`. */
  lemma OccursInSlice(pat: seq<byte>, data: seq<byte>, lo: int, hi: int)
    requires 0 <= lo <= hi <= |data|
    requires Occurs(pat, data[lo..hi])
    ensures Occurs(pat, data)
  {
    var i :| 0 <= i <= hi - lo - |pat| && OccursAt(pat, data[lo..hi], i);
    forall k | 0 <= k < |pat| ensures data[lo + i..lo + i + |pat|][k] == pat[k] {
      assert data[lo..hi][i..i + |pat|][k] == pat[k];
    }
    assert OccursAt(pat, data, lo + i);
  }

  /** A pattern whose first byte appears at no possible start offset does not occur. */
  lemma FirstByteAbsent(pat: seq<byte>, data: seq<byte>)
    requires pat != []
    requires forall i :: 0 <= i <= |data| - |pat| ==> data[i] != pat[0]
    ensures !Occurs(pat, data)
  {
    forall i | 0 <= i <= |data| - |pat| ensures !OccursAt(pat, data, i) {
      assert data[i..i + |pat|][0] == data[i];
    }
  }

  /**
   * When one occurrence lies inside another, the inner pattern occurs in the
   * outer one.
   */
  lemma OccursWithin(inner: seq<byte>, s: int, outer: seq<byte>, t: int, data: seq<byte>)
    requires OccursAt(inner, data, s) && OccursAt(outer, data, t)
    requires t <= s && s + |inner| <= t + |outer|
    ensures OccursAt(inner, outer, s - t)
  {
    forall k | 0 <= k < |inner| ensures outer[s - t + k] == inner[k] {
      assert data[t..t + |outer|][s - t + k] == data[s + k];
      assert data[s..s + |inner|][k] == data[s + k];
    }
    assert outer[s - t..s - t + |inner|] == inner;
  }
}
