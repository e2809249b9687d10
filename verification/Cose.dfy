/**
 COSE_Sign1 (section 4.2 of RFC 8152) over the CBOR items. As the code has it, the
 unprotected header is a byte string, tags are skipped and bytes after the item
 are ignored.
 */
module Cose {
  import opened Common
  import opened Hashing
  import opened ByteOrder
  import opened NumberTheory
  import opened Cbor

  type I32 = x: int | -0x8000_0000 <= x < 0x8000_0000

  datatype CoseError = Decode

  datatype CoseSign1 = CoseSign1(protectedBytes: Bytes, unprotectedBytes: Bytes, payload: Bytes, signature: Bytes)

  // ----- encoder -----

  /** The shortest additional information for a length; lengths past 32 bits get 4 bytes too. */
  function LengthInfo(len: nat): (info: nat)
    ensures info <= 26
  {
    if len <= 23 then len else if len <= 0xFF then 24 else if len <= 0xFFFF then 25 else 26
  }

  /** Integers get up to 8 bytes. */
  function IntegerInfo(n: nat): (info: nat)
    ensures info <= 27
  {
    if n < TWO_32 then LengthInfo(n) else 27
  }

  /** BigEndian keeps the low bytes, as the casts to narrower integers do. */
  function StringBytes(s: Bytes): (b: Bytes)
  {
    HeadBytes(Head(2, LengthInfo(|s|), |s|)) + s
  }

  function StringsBytes(fs: seq<Bytes>): (b: Bytes)
  {
    if fs == [] then [] else StringBytes(fs[0]) + StringsBytes(fs[1..])
  }

  function Fields(c: CoseSign1): (fs: seq<Bytes>)
  {
    [c.protectedBytes, c.unprotectedBytes, c.payload, c.signature]
  }

  function Encoded(c: CoseSign1): (b: Bytes)
  {
    [0xD2, 0x84] + StringsBytes(Fields(c))
  }

  function ProtectedHeader(alg: I32): (b: Bytes)
  {
    [0xA1, 0x01] + HeadBytes(IntegerHead(alg))
  }

  function IntegerHead(n: int): (h: Head)
    ensures h.major <= 1 && h.info <= 27
  {
    var magnitude: nat := if n < 0 then -n - 1 else n;
    Head(if n < 0 then 1 else 0, IntegerInfo(magnitude), magnitude)
  }

  // ----- decoder -----

  function StringsOf(vs: seq<Value>): (r: Option<seq<Bytes>>)
    ensures r.Some? <==> forall i :: 0 <= i < |vs| ==> vs[i].ByteString?
    ensures r.Some? ==> |r.value| == |vs| && forall i :: 0 <= i < |vs| ==> r.value[i] == vs[i].bytes
  {
    if vs == [] then Some([])
    else if !vs[0].ByteString? || StringsOf(vs[1..]).None? then None
    else Some([vs[0].bytes] + StringsOf(vs[1..]).value)
  }

  /** What the four-element array of byte strings at the front of b holds, tags aside. */
  function Decoded(b: Bytes): (r: Result<CoseSign1, CoseError>)
  {
    match Parse(b)
    case None => Err(Decode)
    case Some(t) =>
      match Meaning(t)
      case Array(items) =>
        if |items| != 4 || StringsOf(items).None? then Err(Decode)
        else var fs := StringsOf(items).value; Ok(CoseSign1(fs[0], fs[1], fs[2], fs[3]))
      case _ => Err(Decode)
  }

  function ToI32(n: int): (r: I32)
  {
    var m := n % TWO_32;
    if m < 0x8000_0000 then m else m - TWO_32
  }

  /** The number an entry gives the algorithm, in wrapping arithmetic. */
  function AlgorithmEntry(e: Entry): (r: Option<I32>)
  {
    if e.key != Unsigned(1) then None
    else match e.value
      case Unsigned(n) => Some(ToI32(n))
      case Negative(n) => Some(ToI32(-(n + 1)))
      case _ => None
  }

  function FirstAlgorithm(es: seq<Entry>): (r: Option<I32>)
  {
    if es == [] then None
    else if AlgorithmEntry(es[0]).Some? then AlgorithmEntry(es[0])
    else FirstAlgorithm(es[1..])
  }

  function AlgorithmOf(b: Bytes): (r: Result<I32, CoseError>)
  {
    match Parse(b)
    case None => Err(Decode)
    case Some(t) =>
      match Meaning(t)
      case Map(es) => if FirstAlgorithm(es).Some? then Ok(FirstAlgorithm(es).value) else Err(Decode)
      case _ => Err(Decode)
  }

  // ----- round trip -----

  predicate Short(s: Bytes)
  {
    |s| < TWO_32
  }

  lemma {:induction false} BigEndianKeepsLow(n: nat, k: nat)
    ensures BigEndian(n, k) == BigEndian(n % Pow256(k), k)
    decreases k
  {
    if k > 0 {
      var p := Pow256(k - 1);
      LowByte(n, p);
      BigEndianKeepsLow(n / 256, k - 1);
    }
  }

  lemma LowByte(n: nat, p: nat)
    requires p > 0
    ensures n % (256 * p) % 256 == n % 256
    ensures n % (256 * p) / 256 == n / 256 % p
  {
    var q := n / (256 * p);
    var r := n % (256 * p);
    assert n == 256 * (p * q) + r;
    assert n / 256 == p * q + r / 256;
    ModUnique(n / 256, p, q, r / 256);
  }

  /** An encoded string reads back as its first |s| mod 2^32 bytes. */
  lemma StringParses(s: Bytes, rest: Bytes)
    ensures
      var m := |s| % TWO_32;
      var h := Head(2, LengthInfo(|s|), m);
      && m <= |s|
      && Parse(StringBytes(s) + rest) == Some(Item(h, s[..m], []))
      && WellFormed(Item(h, s[..m], []))
      && Meaning(Item(h, s[..m], [])) == ByteString(s[..m])
      && |Flatten(Item(h, s[..m], []))| == |StringBytes(s)| - |s| + m
  {
    hide Parse, ParseHead, HeadBytes, Flatten, WellFormed, Meaning;
    var m := |s| % TWO_32;
    var h := Head(2, LengthInfo(|s|), m);
    var w := 1 + Width(h.info);
    SameHead(|s|);
    var b := StringBytes(s) + rest;
    assert b == HeadBytes(h) + (s + rest);
    HeadParses(h, s + rest);
    StringItem(b, h);
    assert b[w..][..m] == s[..m];
  }

  lemma SameHead(len: nat)
    ensures
      var h := Head(2, LengthInfo(len), len % TWO_32);
      && ValidHead(h) && len % TWO_32 <= len
      && HeadBytes(h) == HeadBytes(Head(2, LengthInfo(len), len))
  {
    hide BigEndian;
    assert Pow256(4) == TWO_32 && Pow256(2) == 0x1_0000 && Pow256(1) == 0x100;
    BigEndianKeepsLow(len, 4);
  }

  predicate AllShort(fs: seq<Bytes>)
  {
    forall i :: 0 <= i < |fs| ==> Short(fs[i])
  }

  ghost predicate ReadsBack(fs: seq<Bytes>, rest: Bytes)
  {
    var r := ParseMany(StringsBytes(fs) + rest, |fs|);
    r.Some? && StringsOf(MeaningAll(r.value)) == Some(fs)
  }

  /** A list of strings reads back exactly when every one of them is shorter than 2^32. */
  lemma {:induction false} FieldsExactly(fs: seq<Bytes>, rest: Bytes)
    ensures ReadsBack(fs, rest) <==> AllShort(fs)
  {
    hide Parse, Flatten, WellFormed, Meaning, StringBytes;
    if fs == [] {
      assert ParseMany(StringsBytes(fs) + rest, 0) == Some([]);
    } else {
      var s := fs[0];
      var b := StringsBytes(fs) + rest;
      var tail := StringsBytes(fs[1..]) + rest;
      assert b == StringBytes(s) + tail;
      StringParses(s, tail);
      var t := Parse(b).value;
      var next := ParseMany(b[|Flatten(t)|..], |fs| - 1);
      OneMore(b, |fs|, t, next);
      assert Short(s) ==> b[|Flatten(t)|..] == tail && t.content == s;
      FieldsExactly(fs[1..], rest);
      assert AllShort(fs) <==> Short(s) && AllShort(fs[1..]);
      assert fs == [s] + fs[1..];
    }
  }

  lemma OneMore(b: Bytes, k: nat, t: Item, next: Option<seq<Item>>)
    requires k > 0 && Parse(b) == Some(t) && Meaning(t).ByteString?
    requires next == ParseMany(b[|Flatten(t)|..], k - 1)
    ensures ParseMany(b, k).Some? <==> next.Some?
    ensures next.Some? ==>
      StringsOf(MeaningAll(ParseMany(b, k).value)) ==
        if StringsOf(MeaningAll(next.value)).None? then None
        else Some([Meaning(t).bytes] + StringsOf(MeaningAll(next.value)).value)
  {
    hide Parse, Flatten, WellFormed, Meaning;
    if next.Some? {
      var ts := [t] + next.value;
      assert ParseMany(b, k) == Some(ts) && ts[1..] == next.value;
      assert MeaningAll(ts) == [Meaning(t)] + MeaningAll(next.value);
      assert MeaningAll(ts)[1..] == MeaningAll(next.value);
    }
  }

  /** Behind tag 18 and the array head, decoding is reading four strings. */
  lemma DecodedBody(body: Bytes)
    ensures
      var r := ParseMany(body, 4);
      var fs := if r.None? then None else StringsOf(MeaningAll(r.value));
      Decoded([0xD2, 0x84] + body) ==
        if fs.None? then Err(Decode) else Ok(CoseSign1(fs.value[0], fs.value[1], fs.value[2], fs.value[3]))
  {
    hide Parse, ParseMany, ParseHead, Flatten, FlattenAll, WellFormed, AllWellFormed, Meaning, MeaningAll, StringsOf;
    var b := [0xD2, 0x84] + body;
    ShortHead(6, 18, [0x84] + body);
    ShortHead(4, 4, body);
    assert b == [32 * 6 + 18] + ([0x84] + body);
    NestedItem(b, Head(6, 18, 18));
    assert b[1..] == [0x84] + body;
    OneItem(b[1..]);
    NestedItem(b[1..], Head(4, 4, 4));
    assert b[1..][1..] == body;
  }

  lemma ShortHead(major: nat, n: nat, rest: Bytes)
    requires major in {4, 5, 6} && n <= 23
    ensures ParseHead([32 * major + n] + rest) == Some(Head(major, n, n))
  {
    var h := Head(major, n, n);
    HeadParses(h, rest);
    assert HeadBytes(h) == [32 * major + n];
  }

  /** Decoding gives the encoded structure back, whatever bytes follow, exactly when
      every field is shorter than 2^32 bytes. */
  lemma RoundTripExactly(c: CoseSign1, rest: Bytes)
    ensures Decoded(Encoded(c) + rest) == Ok(c) <==> AllShort(Fields(c))
  {
    hide Decoded, StringsBytes, ParseMany, StringsOf, MeaningAll, AllShort;
    var body := StringsBytes(Fields(c)) + rest;
    assert Encoded(c) + rest == [0xD2, 0x84] + body;
    DecodedBody(body);
    FieldsExactly(Fields(c), rest);
    SameFields(c, ParseMany(body, 4));
  }

  lemma SameFields(c: CoseSign1, r: Option<seq<Item>>)
    requires r.Some? ==> AllWellFormed(r.value) && |r.value| == 4
    ensures r.Some? && StringsOf(MeaningAll(r.value)).Some? ==>
      var fs := StringsOf(MeaningAll(r.value)).value;
      |fs| == 4 && (fs == Fields(c) <==> c == CoseSign1(fs[0], fs[1], fs[2], fs[3]))
  {
    hide StringsOf, MeaningAll, AllWellFormed;
  }

  // ----- which encodings no other one continues -----

  const WINDOW: nat := TWO_32 + 0x1_0000

  /** A string below 2^16 bytes is determined by the front of its encoding, and so are strings
      below 2^32 + 2^16 bytes among one another. */
  lemma SameString(f: Bytes, g: Bytes, x: Bytes, y: Bytes)
    requires |f| < 0x1_0000 || (|f| < WINDOW && |g| < WINDOW)
    requires StringBytes(f) + x == StringBytes(g) + y
    ensures f == g && x == y
  {
    hide BigEndian, FromBigEndian, Pow256, StringBytes, LengthInfo, Width;
    StringLayout(f, x);
    StringLayout(g, y);
    var (m, n) := (BigEndian(|f|, Width(LengthInfo(|f|))), BigEndian(|g|, Width(LengthInfo(|g|))));
    SameParts(64 + LengthInfo(|f|), m, f + x, 64 + LengthInfo(|g|), n, g + y);
    SameLength(|f|, |g|);
    assert f == (f + x)[..|f|] && x == (f + x)[|f|..];
    assert g == (g + y)[..|g|] && y == (g + y)[|g|..];
  }

  /** Head, length and content of an encoded string. */
  lemma StringLayout(f: Bytes, x: Bytes)
    ensures StringBytes(f) + x == [64 + LengthInfo(|f|)] + (BigEndian(|f|, Width(LengthInfo(|f|))) + (f + x))
  {
    hide BigEndian, LengthInfo, Width, HeadBytes;
    var i := LengthInfo(|f|);
    StringHead(i, |f|);
    Reassociated([64 + i], BigEndian(|f|, Width(i)), f, x);
  }

  lemma StringHead(i: nat, len: nat)
    requires i < 32
    ensures HeadBytes(Head(2, i, len)) == [64 + i] + BigEndian(len, Width(i))
  {
    hide BigEndian, Width;
  }

  lemma Reassociated(h: Bytes, n: Bytes, f: Bytes, x: Bytes)
    ensures ((h + n) + f) + x == h + (n + (f + x))
  {
  }

  lemma SameParts(h: Byte, m: Bytes, x: Bytes, k: Byte, n: Bytes, y: Bytes)
    requires [h] + (m + x) == [k] + (n + y)
    ensures h == k && (|m| == |n| ==> m == n && x == y)
  {
    var (a, b) := ([h] + (m + x), [k] + (n + y));
    assert a[0] == h && b[0] == k;
    assert a[1..] == m + x && b[1..] == n + y;
    if |m| == |n| {
      assert m == (m + x)[..|m|] && n == (n + y)[..|n|];
      assert x == (m + x)[|m|..] && y == (n + y)[|n|..];
    }
  }

  lemma SameLength(m: nat, n: nat)
    requires m < 0x1_0000 || (m < WINDOW && n < WINDOW)
    requires LengthInfo(m) == LengthInfo(n)
    requires BigEndian(m, Width(LengthInfo(m))) == BigEndian(n, Width(LengthInfo(m)))
    ensures m == n
  {
    hide BigEndian, FromBigEndian, Pow256;
    if m > 23 {
      var w := Width(LengthInfo(m));
      Capacities();
      BigEndianKeepsLow(m, w);
      BigEndianKeepsLow(n, w);
      BigEndianRoundTrip(m % Pow256(w), w);
      BigEndianRoundTrip(n % Pow256(w), w);
    }
  }

  lemma Capacities()
    ensures Pow256(1) == 0x100 && Pow256(2) == 0x1_0000 && Pow256(4) == TWO_32
  {
  }

  ghost predicate AllBelow(fs: seq<Bytes>, limit: nat)
  {
    forall i :: 0 <= i < |fs| ==> |fs[i]| < limit
  }

  lemma {:induction false} SameStrings(fs: seq<Bytes>, gs: seq<Bytes>, x: Bytes, y: Bytes)
    requires |fs| == |gs| && (AllBelow(fs, 0x1_0000) || (AllBelow(fs, WINDOW) && AllBelow(gs, WINDOW)))
    requires StringsBytes(fs) + x == StringsBytes(gs) + y
    ensures fs == gs && x == y
  {
    hide StringBytes;
    if fs == [] {
      assert StringsBytes(fs) + x == x && StringsBytes(gs) + y == y;
    } else {
      assert StringsBytes(fs) + x == StringBytes(fs[0]) + (StringsBytes(fs[1..]) + x);
      assert StringsBytes(gs) + y == StringBytes(gs[0]) + (StringsBytes(gs[1..]) + y);
      SameString(fs[0], gs[0], StringsBytes(fs[1..]) + x, StringsBytes(gs[1..]) + y);
      SameStrings(fs[1..], gs[1..], x, y);
      assert fs == [fs[0]] + fs[1..] && gs == [gs[0]] + gs[1..];
    }
  }

  /** The bytes r filled up to the next larger multiple of 2^32. */
  function Padded(r: Bytes): (t: Bytes)
    ensures |t| == TWO_32 * (|r| / TWO_32 + 1) && r <= t
  {
    r + seq(TWO_32 * (|r| / TWO_32 + 1) - |r|, _ => 0)
  }

  /** A longer string with the same head: the length bytes lose the multiple of 2^32. */
  lemma SameHeadLonger(f: Bytes, r: Bytes)
    requires |f| >= 0x1_0000
    ensures StringBytes(f + Padded(r)) == StringBytes(f) + Padded(r)
  {
    hide BigEndian, Padded, Pow256;
    var (m, n) := (|f|, |f + Padded(r)|);
    BigEndianKeepsLow(m, 4);
    BigEndianKeepsLow(n, 4);
    Capacities();
    SameRemainder(m, |r| / TWO_32 + 1);
  }

  lemma SameRemainder(m: nat, k: nat)
    ensures (m + TWO_32 * k) % TWO_32 == m % TWO_32
  {
  }

  lemma {:induction false} LongFieldContinues(fs: seq<Bytes>, i: nat) returns (gs: seq<Bytes>, rest: Bytes)
    requires i < |fs| && |fs[i]| >= 0x1_0000
    ensures |gs| == |fs| && gs != fs && StringsBytes(gs) == StringsBytes(fs) + rest
  {
    hide StringBytes, Padded;
    var (f, tail) := (fs[0], fs[1..]);
    var r := StringsBytes(tail);
    assert StringsBytes(fs) == StringBytes(f) + r;
    if i == 0 {
      var t := Padded(r);
      gs, rest := [f + t] + tail, t[|r|..] + r;
      SameHeadLonger(f, r);
      assert gs[0] != fs[0] by { assert |gs[0]| > |fs[0]|; }
      assert gs[1..] == tail && t == r + t[|r|..];
      assert StringsBytes(gs) == StringBytes(f + t) + r;
    } else {
      var g, x := LongFieldContinues(tail, i - 1);
      gs, rest := [f] + g, x;
      assert gs[1..] == g && fs == [f] + tail;
    }
  }

  /** No other structure's encoding begins like c's, whatever follows, if and only if every
      field of c is shorter than 2^16 bytes. */
  lemma PrefixFreeExactly(c: CoseSign1)
    ensures (forall d, x, y :: Encoded(c) + x == Encoded(d) + y ==> c == d && x == y) <==>
      AllBelow(Fields(c), 0x1_0000)
  {
    hide StringsBytes;
    if AllBelow(Fields(c), 0x1_0000) {
      forall d, x, y | Encoded(c) + x == Encoded(d) + y
        ensures c == d && x == y
      {
        AfterHeads(c, x);
        AfterHeads(d, y);
        SameStrings(Fields(c), Fields(d), x, y);
        SameStructure(c, d);
      }
    } else {
      var i :| 0 <= i < |Fields(c)| && |Fields(c)[i]| >= 0x1_0000;
      var gs, rest := LongFieldContinues(Fields(c), i);
      var d := CoseSign1(gs[0], gs[1], gs[2], gs[3]);
      assert Fields(d) == gs;
      assert Encoded(c) + rest == Encoded(d) + [];
    }
  }

  /** No encoding of the structures with fields below the limit is a prefix of another one. */
  ghost predicate PrefixFreeBelow(limit: nat)
  {
    forall c, d, x, y :: AllBelow(Fields(c), limit) && AllBelow(Fields(d), limit) && Encoded(c) + x == Encoded(d) + y ==>
      c == d && x == y
  }

  /** That is so if and only if the limit is at most 2^32 + 2^16. */
  lemma EncodingsPrefixFree(limit: nat)
    ensures PrefixFreeBelow(limit) <==> limit <= WINDOW
  {
    hide StringsBytes;
    if limit <= WINDOW {
      forall c, d, x, y | AllBelow(Fields(c), limit) && AllBelow(Fields(d), limit) && Encoded(c) + x == Encoded(d) + y
        ensures c == d && x == y
      {
        AfterHeads(c, x);
        AfterHeads(d, y);
        SameStrings(Fields(c), Fields(d), x, y);
        SameStructure(c, d);
      }
    } else {
      var f: Bytes := seq(0x1_0000, _ => 0);
      var c := CoseSign1([], [], [], f);
      var d := CoseSign1([], [], [], f + Padded([]));
      LastFieldContinues(f);
      assert AllBelow(Fields(c), limit) && AllBelow(Fields(d), limit);
      assert Encoded(c) + Padded([]) == Encoded(d) + [];
      assert c.signature != d.signature by { assert |c.signature| != |d.signature|; }
    }
  }

  lemma LastFieldContinues(f: Bytes)
    requires |f| >= 0x1_0000
    ensures Encoded(CoseSign1([], [], [], f + Padded([]))) == Encoded(CoseSign1([], [], [], f)) + Padded([])
  {
    hide StringBytes, Padded;
    var (c, d) := (CoseSign1([], [], [], f), CoseSign1([], [], [], f + Padded([])));
    FourStrings(c);
    FourStrings(d);
    SameHeadLonger(f, []);
  }

  lemma AfterHeads(c: CoseSign1, x: Bytes)
    ensures (Encoded(c) + x)[2..] == StringsBytes(Fields(c)) + x
  {
    hide StringsBytes;
  }

  lemma SameStructure(c: CoseSign1, d: CoseSign1)
    requires Fields(c) == Fields(d)
    ensures c == d
  {
    assert Fields(c)[0] == Fields(d)[0] && Fields(c)[1] == Fields(d)[1];
    assert Fields(c)[2] == Fields(d)[2] && Fields(c)[3] == Fields(d)[3];
  }

  /** The header built for an algorithm names that algorithm, for every 32-bit number. */
  lemma AlgorithmRoundTrip(alg: I32)
    ensures AlgorithmOf(ProtectedHeader(alg)) == Ok(alg)
  {
    hide Parse, HeadBytes, Flatten, FlattenAll, AllWellFormed, MeaningAll, Pow256;
    var key := Item(Head(0, 1, 1), [], []);
    var value := Item(IntegerHead(alg), [], []);
    var t := Item(Head(5, 1, 1), [], [key, value]);
    IntegerHeadValid(alg);
    Leaf(key.head);
    Leaf(value.head);
    TwoItems(t.head, key, value);
    OneByteHeads();
    FlattenedParses(t, []);
    assert Flatten(t) + [] == ProtectedHeader(alg);
    var vs := MeaningAll([key, value]);
    assert Pairs(vs) == [Entry(vs[0], vs[1])] + Pairs(vs[2..]);
    Wraps(alg);
  }

  // ----- which algorithm a header names -----

  ghost predicate IsInteger(v: Value)
  {
    v.Unsigned? || v.Negative?
  }

  ghost function IntegerValue(v: Value): (n: int)
    requires IsInteger(v)
  {
    if v.Unsigned? then v.n else -1 - v.n
  }

  /** Entry i has key 1 and an integer value, and no entry before it has. */
  ghost predicate FirstWithKeyOne(es: seq<Entry>, i: int)
  {
    && 0 <= i < |es| && es[i].key == Unsigned(1) && IsInteger(es[i].value)
    && forall j :: 0 <= j < i ==> !(es[j].key == Unsigned(1) && IsInteger(es[j].value))
  }

  lemma {:induction false} FirstAlgorithmFound(es: seq<Entry>, i: int)
    requires FirstWithKeyOne(es, i)
    ensures FirstAlgorithm(es).Some? && (IntegerValue(es[i].value) - FirstAlgorithm(es).value) % TWO_32 == 0
    decreases |es|
  {
    if i == 0 {
      Wrapped(IntegerValue(es[0].value));
    } else {
      assert FirstWithKeyOne(es[1..], i - 1);
      FirstAlgorithmFound(es[1..], i - 1);
    }
  }

  lemma Wrapped(n: int)
    ensures (n - ToI32(n)) % TWO_32 == 0
  {
    var k := n / TWO_32;
    assert n == TWO_32 * k + n % TWO_32;
  }

  lemma {:induction false} FirstAlgorithmExists(es: seq<Entry>)
    requires FirstAlgorithm(es).Some?
    ensures exists i :: FirstWithKeyOne(es, i)
    decreases |es|
  {
    if AlgorithmEntry(es[0]).Some? {
      assert FirstWithKeyOne(es, 0);
    } else {
      FirstAlgorithmExists(es[1..]);
      var i :| FirstWithKeyOne(es[1..], i);
      forall j | 0 <= j < i + 1
        ensures !(es[j].key == Unsigned(1) && IsInteger(es[j].value))
      {
        if j > 0 { assert es[1..][j - 1] == es[j]; }
      }
      assert FirstWithKeyOne(es, i + 1);
    }
  }

  /** The algorithm is the value of the first entry with key 1 and an integer value, modulo
      2^32, and there is none exactly when there is no such entry. */
  lemma AlgorithmMeans(b: Bytes, a: I32)
    ensures AlgorithmOf(b) == Ok(a) <==>
      && Parse(b).Some? && Meaning(Parse(b).value).Map?
      && exists i :: FirstWithKeyOne(Meaning(Parse(b).value).entries, i)
                     && (IntegerValue(Meaning(Parse(b).value).entries[i].value) - a) % TWO_32 == 0
    ensures AlgorithmOf(b).Err? <==>
      !(&& Parse(b).Some? && Meaning(Parse(b).value).Map?
        && exists i :: FirstWithKeyOne(Meaning(Parse(b).value).entries, i))
  {
    hide Parse, Meaning, WellFormed, Flatten, FirstAlgorithm, IntegerValue, ToI32;
    if Parse(b).Some? && Meaning(Parse(b).value).Map? {
      var es := Meaning(Parse(b).value).entries;
      if FirstAlgorithm(es).Some? { FirstAlgorithmExists(es); }
      forall i | FirstWithKeyOne(es, i)
        ensures FirstAlgorithm(es).Some?
        ensures (IntegerValue(es[i].value) - a) % TWO_32 == 0 <==> FirstAlgorithm(es).value == a
      {
        FirstAlgorithmFound(es, i);
        SameI32(IntegerValue(es[i].value), FirstAlgorithm(es).value, a);
      }
    }
  }

  lemma SameI32(n: int, x: I32, a: I32)
    requires (n - x) % TWO_32 == 0
    ensures (n - a) % TWO_32 == 0 <==> x == a
  {
    if (n - a) % TWO_32 == 0 {
      assert (n - x) - (n - a) == a - x;
    }
  }

  /** Entries with other keys can stand anywhere. */
  lemma {:induction false} OtherKeysIgnored(es: seq<Entry>, e: Entry, fs: seq<Entry>)
    requires e.key != Unsigned(1)
    ensures FirstAlgorithm(es + [e] + fs) == FirstAlgorithm(es + fs)
    decreases |es|
  {
    if es == [] {
      assert ([] + [e] + fs)[1..] == fs && [] + fs == fs;
    } else {
      OtherKeysIgnored(es[1..], e, fs);
      assert (es + [e] + fs)[1..] == es[1..] + [e] + fs && (es + fs)[1..] == es[1..] + fs;
    }
  }

  lemma IntegerHeadValid(alg: I32)
    ensures ValidHead(IntegerHead(alg))
  {
    assert Pow256(4) == TWO_32 && Pow256(2) == 0x1_0000 && Pow256(1) == 0x100;
  }

  lemma Wraps(alg: I32)
    ensures ToI32(alg) == alg
  {
  }

  lemma OneByteHeads()
    ensures HeadBytes(Head(0, 1, 1)) == [0x01] && HeadBytes(Head(5, 1, 1)) == [0xA1]
  {
  }

  lemma Leaf(h: Head)
    requires ValidHead(h) && h.major < 2
    ensures
      var t := Item(h, [], []);
      && WellFormed(t) && Flatten(t) == HeadBytes(h)
      && Meaning(t) == if h.major == 0 then Unsigned(h.n) else Negative(h.n)
  {
    hide Pow256, HeadBytes;
  }

  lemma TwoItems(h: Head, a: Item, b: Item)
    requires ValidHead(h) && h.major == 5 && h.n == 1 && WellFormed(a) && WellFormed(b)
    ensures
      var t := Item(h, [], [a, b]);
      && WellFormed(t) && AllWellFormed(t.items)
      && Flatten(t) == HeadBytes(h) + Flatten(a) + Flatten(b)
      && MeaningAll(t.items) == [Meaning(a), Meaning(b)]
  {
    hide Pow256, HeadBytes, Meaning;
    assert [a, b][1..] == [b] && [b][1..] == [];
    assert AllWellFormed([b]);
    assert FlattenAll([b]) == Flatten(b) + [] && MeaningAll([b]) == [Meaning(b)] + [];
    assert FlattenAll([a, b]) == Flatten(a) + FlattenAll([b]);
    var t := Item(h, [], [a, b]);
    assert Flatten(t) == HeadBytes(h) + [] + FlattenAll([a, b]);
  }

  // ----- the code -----

  /** The head chosen for an integer below 2^64 is valid, and no valid head for it is shorter. */
  lemma ShortestHead(major: nat, n: nat, h: Head)
    requires major in {0, 1} && n < TWO_64
    ensures ValidHead(Head(major, IntegerInfo(n), n))
    ensures ValidHead(h) && h.n == n ==> Width(IntegerInfo(n)) <= Width(h.info)
  {
    assert Pow256(1) == 0x100 && Pow256(2) == 0x1_0000 && Pow256(4) == TWO_32;
    EightBytes(8);
    assert Pow256(8) == TWO_64;
  }

  method CborUnsignedInt(n: U64) returns (v: Bytes)
    ensures v == HeadBytes(Head(0, IntegerInfo(n), n))
  {
    hide BigEndian;
    if n <= 23 {
      v := [n];
      NoTail(n);
    } else if n <= 0xFF {
      v := [24] + BigEndian(n, 1);
    } else if n <= 0xFFFF {
      v := [25] + BigEndian(n, 2);
    } else if n < TWO_32 {
      v := [26] + BigEndian(n, 4);
    } else {
      v := [27] + BigEndian(n, 8);
    }
  }

  lemma NoTail(n: nat)
    ensures BigEndian(n, 0) == []
  {
  }

  method CborNegativeInt(n: I64) returns (v: Bytes)
    requires n < 0
    ensures v == HeadBytes(Head(1, IntegerInfo(-1 - n), -1 - n))
  {
    hide BigEndian;
    var unsigned: U64 := -1 - n;
    if unsigned <= 23 {
      v := [0x20 + unsigned];
      NoTail(unsigned);
    } else if unsigned <= 0xFF {
      v := [0x38] + BigEndian(unsigned, 1);
    } else if unsigned <= 0xFFFF {
      v := [0x39] + BigEndian(unsigned, 2);
    } else if unsigned < TWO_32 {
      v := [0x3A] + BigEndian(unsigned, 4);
    } else {
      v := [0x3B] + BigEndian(unsigned, 8);
    }
  }

  method CborByteString(bytes: Bytes) returns (v: Bytes)
    ensures v == StringBytes(bytes)
  {
    hide BigEndian;
    var len := |bytes|;
    if len <= 23 {
      v := [0x40 + len];
      NoTail(len);
    } else if len <= 0xFF {
      v := [0x58] + BigEndian(len, 1);
    } else if len <= 0xFFFF {
      v := [0x59] + BigEndian(len, 2);
    } else {
      v := [0x5A] + BigEndian(len, 4);
    }
    v := v + bytes;
  }

  method EncodeProtectedHeader(alg: I32) returns (buf: Bytes)
    ensures buf == ProtectedHeader(alg) && AlgorithmOf(buf) == Ok(alg)
  {
    hide AlgorithmOf, HeadBytes;
    buf := [0xA1];
    var key := CborUnsignedInt(1);
    buf := buf + key;
    var value;
    if alg < 0 {
      value := CborNegativeInt(alg);
    } else {
      value := CborUnsignedInt(alg);
    }
    buf := buf + value;
    OneByteHeads();
    AlgorithmRoundTrip(alg);
  }

  method EncodeCoseSign1(c: CoseSign1) returns (out: Bytes)
    ensures out == Encoded(c)
    ensures forall rest: Bytes :: Decoded(out + rest) == Ok(c) <==> AllShort(Fields(c))
  {
    hide StringBytes, Decoded, AllShort;
    out := [0xD2, 0x84];
    var s0 := CborByteString(c.protectedBytes);
    var s1 := CborByteString(c.unprotectedBytes);
    var s2 := CborByteString(c.payload);
    var s3 := CborByteString(c.signature);
    out := out + s0 + s1 + s2 + s3;
    FourStrings(c);
    assert out == Encoded(c);
    forall rest: Bytes
      ensures Decoded(out + rest) == Ok(c) <==> AllShort(Fields(c))
    {
      RoundTripExactly(c, rest);
    }
  }

  lemma FourStrings(c: CoseSign1)
    ensures StringsBytes(Fields(c)) ==
      StringBytes(c.protectedBytes) + StringBytes(c.unprotectedBytes) + StringBytes(c.payload) + StringBytes(c.signature)
  {
    hide StringBytes;
    var fs := Fields(c);
    var last: seq<Bytes> := fs[3..];
    assert last == [c.signature] && |last[1..]| == 0;
    assert StringsBytes(fs[3..]) == StringBytes(c.signature) + [];
    assert fs[2..][1..] == fs[3..] && fs[1..][1..] == fs[2..];
    assert StringsBytes(fs[2..]) == StringBytes(c.payload) + StringsBytes(fs[3..]);
    assert StringsBytes(fs[1..]) == StringBytes(c.unprotectedBytes) + StringsBytes(fs[2..]);
  }

  method DecodeCoseSign1(bytes: Bytes) returns (r: Result<CoseSign1, CoseError>)
    requires |bytes| < TWO_63
    ensures r == Decoded(bytes)
  {
    hide Parse, Meaning, Flatten, WellFormed, Nodes, StringsOf;
    var reader := new CborReader(bytes);
    var value := reader.Read();
    assert bytes[0..] == bytes;
    if value.None? || !value.value.Array? {
      return Err(Decode);
    }
    var items := value.value.items;
    if |items| != 4 {
      return Err(Decode);
    }
    if !items[0].ByteString? || !items[1].ByteString? || !items[2].ByteString? || !items[3].ByteString? {
      return Err(Decode);
    }
    return Ok(CoseSign1(items[0].bytes, items[1].bytes, items[2].bytes, items[3].bytes));
  }

  method DecodeAlgorithm(bytes: Bytes) returns (r: Result<I32, CoseError>)
    requires |bytes| < TWO_63
    ensures r == AlgorithmOf(bytes)
  {
    hide Parse, Meaning, Flatten, WellFormed, Nodes, ToI32;
    var reader := new CborReader(bytes);
    var header := reader.Read();
    assert bytes[0..] == bytes;
    if header.None? || !header.value.Map? {
      return Err(Decode);
    }
    var entries := header.value.entries;
    var i := 0;
    while i < |entries|
      invariant i <= |entries| && FirstAlgorithm(entries) == FirstAlgorithm(entries[i..])
    {
      var e := entries[i];
      assert entries[i..][1..] == entries[i + 1..];
      if e.key.Unsigned? && e.key.n == 1 {
        match e.value {
          case Unsigned(n) => return Ok(ToI32(n));
          case Negative(n) => return Ok(ToI32(-(n + 1)));
          case _ =>
        }
      }
      i := i + 1;
    }
    return Err(Decode);
  }

  /** What new, encode, decode and algorithm make of one another. */
  method New(alg: I32, payload: Bytes, signature: Bytes) returns (c: CoseSign1)
    ensures c.payload == payload && c.signature == signature && c.unprotectedBytes == []
    ensures AlgorithmOf(c.protectedBytes) == Ok(alg)
    ensures |payload| < TWO_32 && |signature| < TWO_32 ==>
      forall rest: Bytes :: Decoded(Encoded(c) + rest) == Ok(c)
  {
    hide Decoded, Encoded, AlgorithmOf, IntegerHead;
    var header := EncodeProtectedHeader(alg);
    c := CoseSign1(header, [], payload, signature);
    forall rest: Bytes
      ensures |payload| < TWO_32 && |signature| < TWO_32 ==> Decoded(Encoded(c) + rest) == Ok(c)
    {
      RoundTripExactly(c, rest);
    }
  }
}
