/**
 * Byte layout of the arrays the binary writer emits: arrays of fixed-width
 * scalars (`export_values` on a vector of T), bool arrays widened to one
 * byte per element, and string arrays (all lengths first, then the bytes of
 * every string with nothing in between).
 *
 * Each layout comes with a decoder that reads it back; the round-trip lemmas
 * show that the layout loses nothing.
 */
module PrimitiveCodec {
  import opened Wrappers
  import opened FixedWidth

  /** The concatenation of the parts, in order and without separators. */
  function Flatten(parts: seq<Bytes>): (r: Bytes)
  {
    if parts == [] then [] else Flatten(parts[..|parts| - 1]) + parts[|parts| - 1]
  }

  /** Flattening distributes over the concatenation of the part lists. */
  lemma {:induction false} FlattenAppend(a: seq<Bytes>, b: seq<Bytes>)
    ensures Flatten(a + b) == Flatten(a) + Flatten(b)
  {
    if b == [] {
      assert a + b == a;
      AppendEmpty(Flatten(a));
    } else {
      var ab := a + b;
      var init := b[..|b| - 1];
      var last := b[|b| - 1];
      assert ab[..|ab| - 1] == a + init;
      assert ab[|ab| - 1] == last;
      FlattenAppend(a, init);
      assert Flatten(ab) == Flatten(a) + Flatten(init) + last;
      Regroup2(Flatten(a), Flatten(init), last);
    }
  }

  /** Part i of a flattened list sits right after the bytes of parts 0..i-1. */
  lemma {:induction false} FlattenAt(parts: seq<Bytes>, i: nat)
    requires i < |parts|
    ensures |Flatten(parts[..i])| + |parts[i]| <= |Flatten(parts)|
    ensures Flatten(parts)[|Flatten(parts[..i])|..|Flatten(parts[..i])| + |parts[i]|] == parts[i]
  {
    var n := |parts|;
    if i == n - 1 {
      assert parts[..n - 1] == parts[..i];
    } else {
      var init := parts[..n - 1];
      assert init[..i] == parts[..i] && init[i] == parts[i];
      FlattenAt(init, i);
    }
  }

  /** The same, for parts written after a prefix. */
  lemma FlattenAtAfter(prefix: Bytes, parts: seq<Bytes>, i: nat)
    requires i < |parts|
    ensures var start := |prefix| + |Flatten(parts[..i])|;
            start + |parts[i]| <= |prefix + Flatten(parts)| &&
            (prefix + Flatten(parts))[start..start + |parts[i]|] == parts[i]
  {
    FlattenAt(parts, i);
    var start := |prefix| + |Flatten(parts[..i])|;
    var all := prefix + Flatten(parts);
    assert all[start..start + |parts[i]|] == Flatten(parts)[start - |prefix|..start - |prefix| + |parts[i]|];
  }

  /** Part i of bytes laid out as a prefix followed by the parts, found by position. */
  lemma PartAt(prefix: Bytes, parts: seq<Bytes>, i: nat, part: Bytes)
    requires i < |parts| && parts[i] == part
    ensures var start := |prefix| + |Flatten(parts[..i])|;
            start + |part| <= |prefix + Flatten(parts)| && (prefix + Flatten(parts))[start..start + |part|] == part
  {
    FlattenAtAfter(prefix, parts, i);
  }

  /** The prefix of i + 1 parts flattens to the prefix of i parts and part i. */
  lemma FlattenPrefixSnoc(parts: seq<Bytes>, i: nat)
    requires i < |parts|
    ensures Flatten(parts[..i + 1]) == Flatten(parts[..i]) + parts[i]
  {
    assert parts[..i + 1][..i] == parts[..i];
  }

  /** A prefix of the parts flattens to no more bytes than all of them. */
  lemma FlattenPrefixLength(parts: seq<Bytes>, i: nat)
    requires i <= |parts|
    ensures |Flatten(parts[..i])| <= |Flatten(parts)|
  {
    FlattenAppend(parts[..i], parts[i..]);
    assert parts[..i] + parts[i..] == parts;
  }

  /** Flattening a list given by its first part, followed by a rest. */
  lemma FlattenCons(p: Bytes, parts: seq<Bytes>, rest: Bytes)
    ensures Flatten([p] + parts) + rest == p + (Flatten(parts) + rest)
  {
    FlattenAppend([p], parts);
    assert [p][..0] == [];
  }

  /** The parts flatten to nothing iff every part is empty. */
  lemma FlattenEmpty(parts: seq<Bytes>)
    ensures Flatten(parts) == [] <==> forall i :: 0 <= i < |parts| ==> parts[i] == []
  {
    if Flatten(parts) == [] {
      forall i | 0 <= i < |parts| ensures parts[i] == [] {
        FlattenAt(parts, i);
      }
    } else if forall i :: 0 <= i < |parts| ==> parts[i] == [] {
      FlattenLength(parts);
      assert Lengths(parts) == Zeros(|parts|);
      SumZeros(|parts|);
      assert false;
    }
  }

  /** A slice that lies within the middle one of three concatenated pieces. */
  lemma SliceOfMiddle(a: Bytes, b: Bytes, c: Bytes, lo: nat, hi: nat)
    requires lo <= hi <= |b|
    ensures |a| + hi <= |a + b + c|
    ensures (a + b + c)[|a| + lo..|a| + hi] == b[lo..hi]
  {
  }

  /** A slice that lies within the first of two concatenated pieces. */
  lemma SliceOfFirst(a: Bytes, b: Bytes, lo: nat, hi: nat)
    requires lo <= hi <= |a|
    ensures (a + b)[lo..hi] == a[lo..hi]
  {
  }

  /** A slice that lies within the second of two concatenated pieces. */
  lemma SliceOfSecond(a: Bytes, b: Bytes, lo: nat, hi: nat)
    requires lo <= hi <= |b|
    ensures |a| + hi <= |a + b|
    ensures (a + b)[|a| + lo..|a| + hi] == b[lo..hi]
  {
  }

  /** Appending nothing, on either side. */
  lemma AppendEmpty(x: Bytes)
    ensures x + [] == x && [] + x == x
  {
  }

  /** The two pieces of a concatenation, taken back apart. */
  lemma SplitAfter(a: Bytes, b: Bytes)
    ensures (a + b)[..|a|] == a && (a + b)[|a|..] == b
  {
  }

  /** Moving the boundary between the middle pieces of a concatenation. */
  lemma RegroupMiddle(a: Bytes, b: Bytes, c: Bytes, d: Bytes)
    ensures a + (b + c) + d == a + b + (c + d)
  {
  }

  /** Appending pieces one at a time is appending their concatenation. */
  lemma AppendAll2(s: Bytes, a: Bytes, b: Bytes)
    ensures s + (a + b) == s + a + b
  {
  }

  lemma AppendNested(s: Bytes, a: Bytes, b: Bytes, c: Bytes)
    ensures s + (a + (b + c)) == s + a + b + c
  {
  }

  lemma AppendAll3(s: Bytes, a: Bytes, b: Bytes, c: Bytes)
    ensures s + (a + b + c) == s + a + b + c
  {
  }

  lemma AppendAll5(s: Bytes, a: Bytes, b: Bytes, c: Bytes, d: Bytes, e: Bytes)
    ensures s + (a + b + c + d + e) == s + a + b + c + d + e
  {
  }

  lemma AppendAll6(s: Bytes, a: Bytes, b: Bytes, c: Bytes, d: Bytes, e: Bytes, f: Bytes)
    ensures s + (a + b + c + d + e + f) == s + a + b + c + d + e + f
  {
  }

  /** Regrouping two pieces and a remainder to the right. */
  lemma Regroup2(a: Bytes, b: Bytes, rest: Bytes)
    ensures a + b + rest == a + (b + rest)
  {
  }

  /** Regrouping three pieces and a remainder to the right. */
  lemma Regroup3(a: Bytes, b: Bytes, c: Bytes, rest: Bytes)
    ensures a + b + c + rest == a + (b + (c + rest))
  {
  }

  /** Regrouping six pieces and a remainder to the right. */
  lemma Regroup6(a: Bytes, b: Bytes, c: Bytes, d: Bytes, e: Bytes, f: Bytes, rest: Bytes)
    ensures a + b + c + d + e + f + rest == a + (b + (c + (d + (e + (f + rest)))))
  {
  }

  /** Regrouping five concatenated pieces followed by a rest. */
  lemma Regroup5(a: Bytes, b: Bytes, c: Bytes, d: Bytes, e: Bytes, rest: Bytes)
    ensures a + b + c + d + e + rest == a + (b + (c + (d + (e + rest))))
  {
  }

  /** The sum of a list of lengths. */
  function Sum(xs: seq<nat>): nat
  {
    if xs == [] then 0 else Sum(xs[..|xs| - 1]) + xs[|xs| - 1]
  }

  // ---------------------------------------------------------------------
  // Arrays of fixed-width scalars: `export_values` on a vector of T.
  // ---------------------------------------------------------------------

  /** The raw bytes of a vector of w-byte scalars, element after element. */
  function FixedArrayBytes(w: nat, vs: seq<nat>): Bytes
  {
    if vs == [] then [] else FixedArrayBytes(w, vs[..|vs| - 1]) + EncodeFixed(w, vs[|vs| - 1])
  }

  /** Every element takes exactly w bytes. */
  lemma {:induction false} FixedArrayLength(w: nat, vs: seq<nat>)
    ensures |FixedArrayBytes(w, vs)| == w * |vs|
  {
    if vs != [] {
      FixedArrayLength(w, vs[..|vs| - 1]);
      MulSucc(w, |vs| - 1);
    }
  }

  /** The bytes of a non-empty vector: those of all but its last element, then the last. */
  lemma FixedArraySnoc(w: nat, vs: seq<nat>)
    requires vs != []
    ensures FixedArrayBytes(w, vs) == FixedArrayBytes(w, vs[..|vs| - 1]) + EncodeFixed(w, vs[|vs| - 1])
  {
  }

  /** Writing two vectors one after the other is writing their concatenation. */
  lemma {:induction false} FixedArrayAppend(w: nat, a: seq<nat>, b: seq<nat>)
    ensures FixedArrayBytes(w, a + b) == FixedArrayBytes(w, a) + FixedArrayBytes(w, b)
  {
    if b == [] {
      assert a + b == a;
      AppendEmpty(FixedArrayBytes(w, a));
    } else {
      var ab := a + b;
      var init := b[..|b| - 1];
      var last := EncodeFixed(w, b[|b| - 1]);
      assert ab[..|ab| - 1] == a + init;
      assert ab[|ab| - 1] == b[|b| - 1];
      FixedArrayAppend(w, a, init);
      FixedArraySnoc(w, ab);
      FixedArraySnoc(w, b);
      Regroup2(FixedArrayBytes(w, a), FixedArrayBytes(w, init), last);
    }
  }

  /** Element i occupies bytes w*i up to w*(i+1), and nothing else is there. */
  lemma {:induction false} FixedArrayAt(w: nat, vs: seq<nat>, i: nat)
    requires i < |vs|
    ensures |FixedArrayBytes(w, vs)| == w * |vs| && w * i + w <= w * |vs|
    ensures FixedArrayBytes(w, vs)[w * i..w * i + w] == EncodeFixed(w, vs[i])
  {
    var before, after := vs[..i], vs[i + 1..];
    assert vs == before + [vs[i]] + after;
    var e := EncodeFixed(w, vs[i]);
    assert FixedArrayBytes(w, [vs[i]]) == e by {
      FixedArraySnoc(w, [vs[i]]);
      assert [vs[i]][..0] == [];
      AppendEmpty(e);
    }
    FixedArrayAppend(w, before + [vs[i]], after);
    FixedArrayAppend(w, before, [vs[i]]);
    FixedArrayLength(w, before);
    FixedArrayLength(w, vs);
    SliceOfMiddle(FixedArrayBytes(w, before), e, FixedArrayBytes(w, after), 0, w);
    assert e[0..w] == e;
  }

  lemma MulSucc(w: nat, k: nat)
    ensures w * (k + 1) == w * k + w
  {
  }

  /** Reads n w-byte scalars from the front of s; the rest of s is returned. */
  function DecodeFixedArray(w: nat, s: Bytes, n: nat): (r: Option<(seq<nat>, Bytes)>)
    ensures r.Some? ==> |r.value.0| == n
    decreases n
  {
    if n == 0 then Some(([], s))
    else if |s| < w then None
    else
      match DecodeFixedArray(w, s[w..], n - 1)
      case None => None
      case Some((vs, rest)) => Some(([DecodeFixed(s[..w])] + vs, rest))
  }

  /** Every element fits in w bytes. */
  ghost predicate FitsWidth(w: nat, vs: seq<nat>)
  {
    forall i :: 0 <= i < |vs| ==> vs[i] < Pow256(w)
  }

  /** Decoding what was written gives back the vector and leaves what follows. */
  lemma {:induction false} FixedArrayRoundTrip(w: nat, vs: seq<nat>, rest: Bytes)
    requires FitsWidth(w, vs)
    ensures DecodeFixedArray(w, FixedArrayBytes(w, vs) + rest, |vs|) == Some((vs, rest))
  {
    if vs != [] {
      var tail := vs[1..];
      var head := EncodeFixed(w, vs[0]);
      var body := FixedArrayBytes(w, tail) + rest;
      FixedArrayAppend(w, [vs[0]], tail);
      assert [vs[0]] + tail == vs;
      FixedArraySnoc(w, [vs[0]]);
      assert [vs[0]][..1 - 1] == [];
      AppendEmpty(head);
      Regroup2(head, FixedArrayBytes(w, tail), rest);
      SplitAfter(head, body);
      DecodeEncodeFits(w, vs[0]);
      FixedArrayRoundTrip(w, tail, rest);
      assert DecodeFixedArray(w, head + body, |vs|) == Some(([vs[0]] + tail, rest));
    } else {
      AppendEmpty(rest);
    }
  }

  // ---------------------------------------------------------------------
  // Bool arrays: widened to BoolAsByteType, one byte per element.
  // ---------------------------------------------------------------------

  function BoolAsByte(b: bool): nat
  {
    if b then 1 else 0
  }

  /** The bools converted to BoolAsByteType values, element by element. */
  function BoolsAsBytes(bs: seq<bool>): (r: seq<nat>)
    ensures |r| == |bs|
  {
    seq(|bs|, i requires 0 <= i < |bs| => BoolAsByte(bs[i]))
  }

  /** The bytes of a bool vector: the widened vector written as scalars. */
  function BoolArrayBytes(bs: seq<bool>): Bytes
  {
    FixedArrayBytes(BOOL_AS_BYTE_WIDTH, BoolsAsBytes(bs))
  }

  /** One byte per bool, in order: 1 for true, 0 for false. */
  lemma BoolArrayLayout(bs: seq<bool>)
    ensures |BoolArrayBytes(bs)| == |bs|
    ensures forall i :: 0 <= i < |bs| ==> BoolArrayBytes(bs)[i] == if bs[i] then 1 else 0
  {
    var r := BoolArrayBytes(bs);
    FixedArrayLength(BOOL_AS_BYTE_WIDTH, BoolsAsBytes(bs));
    forall i | 0 <= i < |bs|
      ensures r[i] == if bs[i] then 1 else 0
    {
      var b := BoolAsByte(bs[i]);
      FixedArrayAt(BOOL_AS_BYTE_WIDTH, BoolsAsBytes(bs), i);
      assert r[i..i + 1] == EncodeFixed(1, b);
      assert EncodeFixed(1, b) == [b as byte];
      assert r[i] == r[i..i + 1][0];
    }
  }

  /** Reads n bools, each byte other than 0 meaning true. */
  function DecodeBoolArray(s: Bytes, n: nat): (r: Option<(seq<bool>, Bytes)>)
    ensures r.Some? ==> |r.value.0| == n
  {
    match DecodeFixedArray(BOOL_AS_BYTE_WIDTH, s, n)
    case None => None
    case Some((vs, rest)) => Some((seq(n, i requires 0 <= i < n => vs[i] != 0), rest))
  }

  lemma BoolArrayRoundTrip(bs: seq<bool>, rest: Bytes)
    ensures DecodeBoolArray(BoolArrayBytes(bs) + rest, |bs|) == Some((bs, rest))
  {
    var vs := BoolsAsBytes(bs);
    FixedArrayRoundTrip(BOOL_AS_BYTE_WIDTH, vs, rest);
    var n := |bs|;
    assert seq(n, i requires 0 <= i < n => vs[i] != 0) == bs;
  }

  // ---------------------------------------------------------------------
  // String arrays: `export_string_values`.
  // ---------------------------------------------------------------------

  /** The length of every string, in order. */
  function Lengths(strs: seq<Bytes>): (r: seq<nat>)
    ensures |r| == |strs|
  {
    seq(|strs|, i requires 0 <= i < |strs| => |strs[i]|)
  }

  /** n zero lengths: the pre-sized, value-initialised part of a length vector. */
  function Zeros(n: nat): (r: seq<nat>)
    ensures |r| == n
  {
    seq(n, _ => 0)
  }

  /** The string array layout: the size_t lengths, then every string's bytes. */
  function StringArrayBytes(strs: seq<Bytes>): Bytes
  {
    FixedArrayBytes(SIZE_T_WIDTH, Lengths(strs)) + Flatten(strs)
  }

  /** The concatenated bytes are exactly as long as the sum of the lengths. */
  lemma {:induction false} FlattenLength(strs: seq<Bytes>)
    ensures |Flatten(strs)| == Sum(Lengths(strs))
  {
    if strs != [] {
      var n := |strs|;
      assert Lengths(strs)[..n - 1] == Lengths(strs[..n - 1]);
      FlattenLength(strs[..n - 1]);
    }
  }

  /**
   * The string array holds n size_t length entries, entry i being the length
   * of string i, followed by the strings' bytes, string i starting where the
   * lengths of the strings before it add up to.
   */
  lemma StringArrayLayout(strs: seq<Bytes>, i: nat)
    requires i < |strs|
    ensures |StringArrayBytes(strs)| == SIZE_T_WIDTH * |strs| + Sum(Lengths(strs))
    ensures StringArrayBytes(strs)[SIZE_T_WIDTH * i..SIZE_T_WIDTH * i + SIZE_T_WIDTH]
            == EncodeFixed(SIZE_T_WIDTH, |strs[i]|)
    ensures var start := SIZE_T_WIDTH * |strs| + Sum(Lengths(strs[..i]));
            start + |strs[i]| <= |StringArrayBytes(strs)| &&
            StringArrayBytes(strs)[start..start + |strs[i]|] == strs[i]
  {
    FlattenLength(strs);
    FixedArrayLength(SIZE_T_WIDTH, Lengths(strs));
    StringArrayLengthAt(strs, i);
    StringArrayStringAt(strs, i);
  }

  /** The i-th size_t of a string array is the length of string i. */
  lemma StringArrayLengthAt(strs: seq<Bytes>, i: nat)
    requires i < |strs|
    ensures SIZE_T_WIDTH * i + SIZE_T_WIDTH <= |StringArrayBytes(strs)|
    ensures StringArrayBytes(strs)[SIZE_T_WIDTH * i..SIZE_T_WIDTH * i + SIZE_T_WIDTH]
            == EncodeFixed(SIZE_T_WIDTH, |strs[i]|)
  {
    var lens := FixedArrayBytes(SIZE_T_WIDTH, Lengths(strs));
    assert StringArrayBytes(strs) == lens + Flatten(strs);
    FixedArrayAt(SIZE_T_WIDTH, Lengths(strs), i);
    SliceOfFirst(lens, Flatten(strs), SIZE_T_WIDTH * i, SIZE_T_WIDTH * i + SIZE_T_WIDTH);
  }

  /** String i of a string array follows the lengths and strings 0..i-1. */
  lemma StringArrayStringAt(strs: seq<Bytes>, i: nat)
    requires i < |strs|
    ensures var start := SIZE_T_WIDTH * |strs| + Sum(Lengths(strs[..i]));
            start + |strs[i]| <= |StringArrayBytes(strs)| &&
            StringArrayBytes(strs)[start..start + |strs[i]|] == strs[i]
  {
    var lens := FixedArrayBytes(SIZE_T_WIDTH, Lengths(strs));
    FixedArrayLength(SIZE_T_WIDTH, Lengths(strs));
    FlattenLength(strs[..i]);
    FlattenAtAfter(lens, strs, i);
  }

  lemma LengthsPrefixSnoc(strs: seq<Bytes>, i: nat)
    requires i < |strs|
    ensures Lengths(strs[..i + 1]) == Lengths(strs[..i]) + [|strs[i]|]
  {
  }

  lemma ZerosAppend(n: nat, m: nat)
    ensures Zeros(n) + Zeros(m) == Zeros(n + m)
  {
  }

  lemma LengthsOfEmpty(strs: seq<Bytes>)
    requires forall i :: 0 <= i < |strs| ==> strs[i] == []
    ensures Lengths(strs) == Zeros(|strs|)
  {
  }

  /** Strings without characters: n zeros followed by their n lengths are 2n zeros. */
  lemma ZerosThenLengthsOfEmpty(strs: seq<Bytes>)
    requires |Flatten(strs)| == 0
    ensures Zeros(|strs|) + Lengths(strs) == Zeros(2 * |strs|)
  {
    FlattenEmpty(strs);
    LengthsOfEmpty(strs);
    ZerosAppend(|strs|, |strs|);
  }

  /** Without any characters, a string array is its length vector alone. */
  lemma StringArrayWithoutCharacters(strs: seq<Bytes>)
    requires |Flatten(strs)| == 0
    ensures StringArrayBytes(strs) == FixedArrayBytes(SIZE_T_WIDTH, Lengths(strs))
  {
    AppendEmpty(FixedArrayBytes(SIZE_T_WIDTH, Lengths(strs)));
  }

  /** When every string is empty, only the n zero lengths are written. */
  lemma EmptyStringsWriteOnlyLengths(strs: seq<Bytes>)
    requires forall i :: 0 <= i < |strs| ==> strs[i] == []
    ensures StringArrayBytes(strs) == FixedArrayBytes(SIZE_T_WIDTH, Zeros(|strs|))
    ensures |StringArrayBytes(strs)| == SIZE_T_WIDTH * |strs|
  {
    FlattenLength(strs);
    assert Lengths(strs) == Zeros(|strs|);
    SumZeros(|strs|);
    FixedArrayLength(SIZE_T_WIDTH, Zeros(|strs|));
  }

  lemma {:induction false} SumZeros(n: nat)
    ensures Sum(Zeros(n)) == 0
  {
    if n > 0 {
      assert Zeros(n)[..n - 1] == Zeros(n - 1);
      SumZeros(n - 1);
    }
  }

  /** Cuts consecutive strings of the given lengths off the front of s. */
  function TakeStrings(lens: seq<nat>, s: Bytes): (r: Option<(seq<Bytes>, Bytes)>)
    ensures r.Some? ==> |r.value.0| == |lens|
  {
    if lens == [] then Some(([], s))
    else if |s| < lens[0] then None
    else
      match TakeStrings(lens[1..], s[lens[0]..])
      case None => None
      case Some((strs, rest)) => Some(([s[..lens[0]]] + strs, rest))
  }

  /** Reads an array of n strings: n size_t lengths, then the bytes. */
  function DecodeStringArray(s: Bytes, n: nat): (r: Option<(seq<Bytes>, Bytes)>)
    ensures r.Some? ==> |r.value.0| == n
  {
    match DecodeFixedArray(SIZE_T_WIDTH, s, n)
    case None => None
    case Some((lens, rest)) => TakeStrings(lens, rest)
  }

  lemma {:induction false} TakeStringsRoundTrip(strs: seq<Bytes>, rest: Bytes)
    ensures TakeStrings(Lengths(strs), Flatten(strs) + rest) == Some((strs, rest))
  {
    if strs != [] {
      var tail := strs[1..];
      FlattenAppend([strs[0]], tail);
      assert [strs[0]] + tail == strs;
      assert Flatten([strs[0]]) == strs[0] by {
        assert [strs[0]][..0] == [];
      }
      var s := Flatten(strs) + rest;
      assert s == strs[0] + (Flatten(tail) + rest);
      assert s[|strs[0]|..] == Flatten(tail) + rest;
      assert Lengths(strs)[1..] == Lengths(tail);
      TakeStringsRoundTrip(tail, rest);
      assert s[..|strs[0]|] == strs[0];
      assert TakeStrings(Lengths(strs), s) == Some(([strs[0]] + tail, rest));
    } else {
      AppendEmpty(rest);
    }
  }

  /** Strings whose lengths fit a size_t.  */
  ghost predicate LengthsFit(strs: seq<Bytes>)
  {
    forall i :: 0 <= i < |strs| ==> |strs[i]| < Pow256(SIZE_T_WIDTH)
  }

  /** A string array reads back as the same strings, in order. */
  lemma StringArrayRoundTrip(strs: seq<Bytes>, rest: Bytes)
    requires LengthsFit(strs)
    ensures DecodeStringArray(StringArrayBytes(strs) + rest, |strs|) == Some((strs, rest))
  {
    var lens := Lengths(strs);
    assert FitsWidth(SIZE_T_WIDTH, lens);
    Regroup2(FixedArrayBytes(SIZE_T_WIDTH, lens), Flatten(strs), rest);
    FixedArrayRoundTrip(SIZE_T_WIDTH, lens, Flatten(strs) + rest);
    TakeStringsRoundTrip(strs, rest);
  }
}
