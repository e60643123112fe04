/** Bytes, ASCII constants and the byte-search primitive every scanner uses. */
module Bytes {
  import opened Results

  /** Rust's `u8`. */
  type Byte = b: int | 0 <= b < 256

  /** The bytes of an ASCII text (every character used here is below 128). */
  function Ascii(s: string): (r: seq<Byte>)
    ensures |r| == |s|
  {
    if |s| == 0 then [] else [(s[0] as int) % 256] + Ascii(s[1..])
  }

  /** `s` occurs in `data` at `pos`, byte by byte. */
  predicate At(data: seq<Byte>, pos: nat, s: seq<Byte>) {
    pos + |s| <= |data| && AtUpTo(data, pos, s, |s|)
  }

  /** The first `n` bytes of `s` occur in `data` at `pos`. */
  predicate AtUpTo(data: seq<Byte>, pos: nat, s: seq<Byte>, n: nat)
    requires n <= |s|
  {
    n == 0 || (pos + n - 1 < |data| && data[pos + n - 1] == s[n - 1] && AtUpTo(data, pos, s, n - 1))
  }

  lemma {:induction false} AtUpToIndex(data: seq<Byte>, pos: nat, s: seq<Byte>, n: nat)
    requires n <= |s|
    requires pos + n <= |data|
    ensures AtUpTo(data, pos, s, n) <==> forall j :: 0 <= j < n ==> data[pos + j] == s[j]
  {
    if 0 < n {
      AtUpToIndex(data, pos, s, n - 1);
    }
  }

  /** `At` is the slice equation `data[pos..pos + |s|] == s`. */
  lemma AtSlice(data: seq<Byte>, pos: nat, s: seq<Byte>)
    ensures At(data, pos, s) <==> pos + |s| <= |data| && data[pos..pos + |s|] == s
  {
    if pos + |s| <= |data| {
      AtUpToIndex(data, pos, s, |s|);
      assert (forall j :: 0 <= j < |s| ==> data[pos + j] == s[j]) <==> data[pos..pos + |s|] == s;
    }
  }

  lemma AtConcat(data: seq<Byte>, pos: nat, a: seq<Byte>, b: seq<Byte>)
    requires At(data, pos, a + b)
    ensures At(data, pos, a)
    ensures At(data, pos + |a|, b)
  {
    AtSlice(data, pos, a + b);
    AtSlice(data, pos, a);
    AtSlice(data, pos + |a|, b);
    assert data[pos..pos + |a|] == (a + b)[..|a|];
    assert data[pos + |a|..pos + |a| + |b|] == (a + b)[|a|..];
  }

  /** The leading part of `(a + b) + c` and what follows it. */
  lemma AtSplit(data: seq<Byte>, pos: nat, a: seq<Byte>, b: seq<Byte>, c: seq<Byte>)
    requires At(data, pos, (a + b) + c)
    ensures At(data, pos, a)
    ensures At(data, pos + |a|, b + c)
  {
    assert (a + b) + c == a + (b + c);
    AtConcat(data, pos, a, b + c);
  }

  lemma AtIndex(data: seq<Byte>, pos: nat, s: seq<Byte>, i: nat)
    requires At(data, pos, s)
    requires i < |s|
    ensures pos + i < |data| && data[pos + i] == s[i]
  {
    AtSlice(data, pos, s);
    assert data[pos..pos + |s|][i] == s[i];
  }

  /** The index of the first occurrence of `b` in `s` (Rust's `position` /
      `str::find` on a single ASCII byte). */
  function IndexOf(s: seq<Byte>, b: Byte): (r: Option<nat>)
    ensures r.Some? ==> r.value < |s| && s[r.value] == b
    ensures r.Some? ==> forall j :: 0 <= j < r.value ==> s[j] != b
    ensures r.None? <==> forall j :: 0 <= j < |s| ==> s[j] != b
  {
    if |s| == 0 then None
    else if s[0] == b then Some(0)
    else
      match IndexOf(s[1..], b)
      case None => None
      case Some(i) => Some(i + 1)
  }

  /** A first occurrence is unique: any index meeting the two conditions is the one found. */
  lemma IndexOfUnique(s: seq<Byte>, b: Byte, k: nat)
    requires k < |s| && s[k] == b
    requires forall j :: 0 <= j < k ==> s[j] != b
    ensures IndexOf(s, b) == Some(k)
  {
  }

  /** Byte strings laid end to end (`Vec::extend` in sequence). */
  function Concat(parts: seq<seq<Byte>>): (r: seq<Byte>)
    decreases |parts|
  {
    if |parts| == 0 then [] else parts[0] + Concat(parts[1..])
  }

  /** Where part `i` starts once the parts are laid end to end. */
  function Offset(parts: seq<seq<Byte>>, i: nat): (r: nat)
    requires i <= |parts|
  {
    if i == 0 then 0 else Offset(parts, i - 1) + |parts[i - 1]|
  }

  /** Dropping the first part moves every later part forward by its length. */
  lemma {:induction false} OffsetTail(parts: seq<seq<Byte>>, i: nat)
    requires 0 < i <= |parts|
    ensures Offset(parts, i) == |parts[0]| + Offset(parts[1..], i - 1)
  {
    if 1 < i {
      OffsetTail(parts, i - 1);
    }
  }

  /** A slice of the second half of `a + b`, shifted by `|a|`. */
  lemma AppendSlice(a: seq<Byte>, b: seq<Byte>, lo: nat, hi: nat)
    requires lo <= hi <= |b|
    ensures (a + b)[|a| + lo..|a| + hi] == b[lo..hi]
  {
    assert forall k :: 0 <= k < hi - lo ==> (a + b)[|a| + lo..|a| + hi][k] == b[lo..hi][k];
  }

  /** Part `i` of the concatenation sits at its offset. */
  lemma {:induction false} ConcatPart(parts: seq<seq<Byte>>, i: nat)
    requires i < |parts|
    ensures Offset(parts, i) + |parts[i]| <= |Concat(parts)|
    ensures Concat(parts)[Offset(parts, i)..Offset(parts, i) + |parts[i]|] == parts[i]
    decreases i
  {
    var rest := Concat(parts[1..]);
    assert Concat(parts) == parts[0] + rest;
    if i == 0 {
      assert (parts[0] + rest)[..|parts[0]|] == parts[0];
    } else {
      ConcatPart(parts[1..], i - 1);
      OffsetTail(parts, i);
      assert parts[1..][i - 1] == parts[i];
      var at := Offset(parts[1..], i - 1);
      AppendSlice(parts[0], rest, at, at + |parts[i]|);
    }
  }

  /** The concatenation ends where a part after the last would start. */
  lemma {:induction false} ConcatLength(parts: seq<seq<Byte>>)
    ensures |Concat(parts)| == Offset(parts, |parts|)
    decreases |parts|
  {
    if 0 < |parts| {
      ConcatLength(parts[1..]);
      OffsetTail(parts, |parts|);
    }
  }
}
