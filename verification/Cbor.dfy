/**
 CBOR items (section 3 of RFC 8949, the major types the COSE codec reads): the
 concrete syntax, a parser that accepts exactly that syntax, and the cursor-based
 reader proved equal to the parser.
 */
module Cbor {
  import opened Common
  import opened Hashing
  import opened ByteOrder

  datatype Value =
    | Unsigned(n: nat)
    | Negative(n: nat)
    | ByteString(bytes: Bytes)
    | Array(items: seq<Value>)
    | Map(entries: seq<Entry>)

  datatype Entry = Entry(key: Value, value: Value)

  // ----- concrete syntax -----

  /** Major type, additional information and the argument the head carries. */
  datatype Head = Head(major: nat, info: nat, n: nat)

  function Width(info: nat): (w: nat)
    ensures w <= 8
  {
    match info case 24 => 1 case 25 => 2 case 26 => 4 case 27 => 8 case _ => 0
  }

  predicate ValidHead(h: Head)
  {
    && h.major in {0, 1, 2, 4, 5, 6}
    && h.info <= 27
    && if h.info <= 23 then h.n == h.info else h.n < Pow256(Width(h.info))
  }

  function HeadBytes(h: Head): (b: Bytes)
    requires h.major < 8 && h.info < 32
    ensures |b| == 1 + Width(h.info)
  {
    [32 * h.major + h.info] + BigEndian(h.n, Width(h.info))
  }

  /** How many items follow a head: array elements, map keys and values, tag content. */
  function Arity(h: Head): (k: nat)
  {
    match h.major case 4 => h.n case 5 => 2 * h.n case 6 => 1 case _ => 0
  }

  datatype Item = Item(head: Head, content: Bytes, items: seq<Item>)

  predicate WellFormed(t: Item)
    decreases t, 0
  {
    && ValidHead(t.head)
    && |t.content| == (if t.head.major == 2 then t.head.n else 0)
    && |t.items| == Arity(t.head)
    && AllWellFormed(t.items)
  }

  predicate AllWellFormed(ts: seq<Item>)
    decreases ts, 1
  {
    ts == [] || (WellFormed(ts[0]) && AllWellFormed(ts[1..]))
  }

  function Flatten(t: Item): (b: Bytes)
    requires WellFormed(t)
    ensures |b| > 0
    decreases t, 0
  {
    HeadBytes(t.head) + t.content + FlattenAll(t.items)
  }

  function FlattenAll(ts: seq<Item>): (b: Bytes)
    requires AllWellFormed(ts)
    ensures |ts| <= |b|
    decreases ts, 1
  {
    if ts == [] then [] else Flatten(ts[0]) + FlattenAll(ts[1..])
  }

  /** The value an item stands for; a tag stands for the item it marks. */
  function Meaning(t: Item): (v: Value)
    requires WellFormed(t)
    decreases t, 0
  {
    match t.head.major
    case 0 => Unsigned(t.head.n)
    case 1 => Negative(t.head.n)
    case 2 => ByteString(t.content)
    case 4 => Array(MeaningAll(t.items))
    case 5 => Map(Pairs(MeaningAll(t.items)))
    case _ => MeaningAll(t.items)[0]
  }

  function MeaningAll(ts: seq<Item>): (vs: seq<Value>)
    requires AllWellFormed(ts)
    ensures |vs| == |ts|
    decreases ts, 1
  {
    if ts == [] then [] else [Meaning(ts[0])] + MeaningAll(ts[1..])
  }

  function Pairs(vs: seq<Value>): (ps: seq<Entry>)
    ensures |ps| == |vs| / 2
  {
    if |vs| < 2 then [] else [Entry(vs[0], vs[1])] + Pairs(vs[2..])
  }

  // ----- parser -----

  function ParseHead(b: Bytes): (r: Option<Head>)
  {
    if b == [] then None
    else
      var major, info := b[0] / 32, b[0] % 32;
      var w := Width(info);
      if major !in {0, 1, 2, 4, 5, 6} || info > 27 || |b| < 1 + w then None
      else Some(Head(major, info, if info <= 23 then info else FromBigEndian(b[1..1 + w])))
  }

  lemma HeadParses(h: Head, rest: Bytes)
    requires ValidHead(h)
    ensures ParseHead(HeadBytes(h) + rest) == Some(h)
  {
    hide BigEndian, FromBigEndian, Pow256;
    var b := HeadBytes(h) + rest;
    var w := Width(h.info);
    assert b[1..1 + w] == BigEndian(h.n, w);
    if h.info > 23 { BigEndianRoundTrip(h.n, w); }
    FirstByte(h.major, h.info);
  }

  lemma FirstByte(major: nat, info: nat)
    requires info < 32
    ensures (32 * major + info) / 32 == major && (32 * major + info) % 32 == info
  {
  }

  lemma ParsedHead(b: Bytes)
    requires ParseHead(b).Some?
    ensures ValidHead(ParseHead(b).value)
    ensures HeadBytes(ParseHead(b).value) <= b
  {
    hide BigEndian, FromBigEndian, Pow256;
    var h := ParseHead(b).value;
    var w := Width(h.info);
    assert b[0] == 32 * h.major + h.info;
    if h.info > 23 {
      FromBigEndianBound(b[1..1 + w]);
      FromBigEndianRoundTrip(b[1..1 + w]);
    }
    assert b[..1 + w] == [b[0]] + b[1..1 + w];
  }

  /** A head, then what the parser took after it, is a prefix of the input. */
  lemma Assembled(b: Bytes, head: Bytes, body: Bytes)
    requires head <= b && body <= b[|head|..]
    ensures head + body <= b
  {
  }

  lemma StringFlattened(h: Head, content: Bytes)
    requires ValidHead(h) && h.major == 2 && |content| == h.n
    ensures WellFormed(Item(h, content, [])) && Flatten(Item(h, content, [])) == HeadBytes(h) + content
  {
    hide HeadBytes, Pow256;
  }

  lemma NestedFlattened(h: Head, ts: seq<Item>)
    requires ValidHead(h) && h.major != 2 && |ts| == Arity(h) && AllWellFormed(ts)
    ensures WellFormed(Item(h, [], ts)) && Flatten(Item(h, [], ts)) == HeadBytes(h) + FlattenAll(ts)
  {
    hide HeadBytes, Pow256, FlattenAll, AllWellFormed;
  }

  function Parse(b: Bytes): (r: Option<Item>)
    ensures r.Some? ==> WellFormed(r.value) && Flatten(r.value) <= b
    decreases |b|, 0
  {
    hide Flatten, WellFormed, FlattenAll, AllWellFormed, ValidHead, HeadBytes, ParseHead, Arity;
    if ParseHead(b).None? then None
    else
      ParsedHead(b);
      var h := ParseHead(b).value;
      var rest := b[|HeadBytes(h)|..];
      if h.major == 2 then
        if h.n <= |rest| then
          var t := Item(h, rest[..h.n], []);
          Assembled(b, HeadBytes(h), rest[..h.n]);
          StringFlattened(h, rest[..h.n]);
          Some(t)
        else None
      else
        match ParseMany(rest, Arity(h))
        case None => None
        case Some(ts) =>
          var t := Item(h, [], ts);
          Assembled(b, HeadBytes(h), FlattenAll(ts));
          NestedFlattened(h, ts);
          Some(t)
  }

  function ParseMany(b: Bytes, k: nat): (r: Option<seq<Item>>)
    ensures r.Some? ==> |r.value| == k && AllWellFormed(r.value) && FlattenAll(r.value) <= b
    decreases |b|, 1
  {
    hide Flatten, WellFormed;
    if k == 0 then Some([])
    else
      match Parse(b)
      case None => None
      case Some(t) =>
        match ParseMany(b[|Flatten(t)|..], k - 1)
        case None => None
        case Some(ts) =>
          assert ([t] + ts)[1..] == ts;
          Assembled(b, Flatten(t), FlattenAll(ts));
          Some([t] + ts)
  }

  lemma {:induction false} FlattenedParses(t: Item, rest: Bytes)
    requires WellFormed(t)
    ensures Parse(Flatten(t) + rest) == Some(t)
    decreases t, 0
  {
    hide Parse, ParseMany, ParseHead, HeadBytes, FlattenAll, AllWellFormed, Pow256;
    var b := Flatten(t) + rest;
    var body := t.content + FlattenAll(t.items) + rest;
    assert b == HeadBytes(t.head) + body;
    HeadParses(t.head, body);
    assert b[|HeadBytes(t.head)|..] == body;
    ParseUnfold(b);
    if t.head.major == 2 {
      NoItems(t.items);
      assert body[..t.head.n] == t.content;
    } else {
      FlattenedAllParse(t.items, rest);
      assert body == FlattenAll(t.items) + rest;
    }
  }

  lemma {:induction false} FlattenedAllParse(ts: seq<Item>, rest: Bytes)
    requires AllWellFormed(ts)
    ensures ParseMany(FlattenAll(ts) + rest, |ts|) == Some(ts)
    decreases ts, 1
  {
    hide Parse, Flatten, WellFormed;
    var b := FlattenAll(ts) + rest;
    if ts != [] {
      var tail := FlattenAll(ts[1..]) + rest;
      assert b == Flatten(ts[0]) + tail;
      FlattenedParses(ts[0], tail);
      assert b[|Flatten(ts[0])|..] == tail;
      FlattenedAllParse(ts[1..], rest);
      assert ts == [ts[0]] + ts[1..];
    }
  }

  lemma NoItems(ts: seq<Item>)
    requires AllWellFormed(ts)
    ensures |ts| == 0 ==> FlattenAll(ts) == []
  {
  }

  lemma ParseUnfold(b: Bytes)
    requires ParseHead(b).Some? && ValidHead(ParseHead(b).value) && HeadBytes(ParseHead(b).value) <= b
    ensures
      var h := ParseHead(b).value;
      var rest := b[|HeadBytes(h)|..];
      Parse(b) ==
        if h.major == 2 then (if h.n <= |rest| then Some(Item(h, rest[..h.n], [])) else None)
        else if ParseMany(rest, Arity(h)).None? then None
        else Some(Item(h, [], ParseMany(rest, Arity(h)).value))
  {
    hide ParseMany, Flatten, WellFormed, ParseHead, HeadBytes, ValidHead;
  }

  /** The parser accepts exactly the inputs that begin with an item. */
  lemma ParseExactly(b: Bytes, t: Item)
    ensures Parse(b) == Some(t) <==> WellFormed(t) && Flatten(t) <= b
  {
    hide Parse, Flatten, WellFormed;
    if WellFormed(t) && Flatten(t) <= b {
      FlattenedParses(t, b[|Flatten(t)|..]);
      assert b == Flatten(t) + b[|Flatten(t)|..];
    }
  }

  /** No item is a prefix of another: one input begins with at most one item. */
  lemma PrefixFree(b: Bytes, t: Item, u: Item)
    requires WellFormed(t) && Flatten(t) <= b
    requires WellFormed(u) && Flatten(u) <= b
    ensures t == u
  {
    hide *;
    ParseExactly(b, t);
    ParseExactly(b, u);
  }

  // ----- size of what is read -----

  function Nodes(v: Value): (k: nat)
    ensures k > 0
    decreases v, 0
  {
    match v
    case Array(items) => 1 + NodesAll(items)
    case Map(entries) => 1 + NodesOfPairs(entries)
    case _ => 1
  }

  function NodesAll(vs: seq<Value>): (k: nat)
    decreases vs, 1
  {
    if vs == [] then 0 else Nodes(vs[0]) + NodesAll(vs[1..])
  }

  function NodesOfPairs(ps: seq<Entry>): (k: nat)
    decreases ps, 1
  {
    if ps == [] then 0 else NodesOfEntry(ps[0]) + NodesOfPairs(ps[1..])
  }

  function NodesOfEntry(e: Entry): (k: nat)
    decreases e, 0
  {
    Nodes(e.key) + Nodes(e.value)
  }

  lemma {:induction false} PairsKeepNodes(vs: seq<Value>)
    ensures NodesOfPairs(Pairs(vs)) <= NodesAll(vs)
    ensures |vs| % 2 == 0 ==> NodesOfPairs(Pairs(vs)) == NodesAll(vs)
  {
    hide Nodes;
    if |vs| >= 2 {
      PairsKeepNodes(vs[2..]);
      assert vs[1..][1..] == vs[2..];
      assert Pairs(vs)[1..] == Pairs(vs[2..]);
    }
  }

  /** A value has no more nodes than the bytes it was read from. */
  lemma {:induction false} NodesBounded(t: Item)
    requires WellFormed(t)
    ensures Nodes(Meaning(t)) <= |Flatten(t)|
    decreases t, 0
  {
    hide AllWellFormed, Pow256;
    NodesAllBounded(t.items);
    if t.head.major == 5 { PairsKeepNodes(MeaningAll(t.items)); }
  }

  /** How many heads an item is written with, and how many of them are tags. */
  ghost function HeadCount(t: Item): (k: nat)
    decreases t, 0
  {
    1 + HeadCountAll(t.items)
  }

  ghost function HeadCountAll(ts: seq<Item>): (k: nat)
    decreases ts, 1
  {
    if ts == [] then 0 else HeadCount(ts[0]) + HeadCountAll(ts[1..])
  }

  ghost function TagCount(t: Item): (k: nat)
    decreases t, 0
  {
    (if t.head.major == 6 then 1 else 0) + TagCountAll(t.items)
  }

  ghost function TagCountAll(ts: seq<Item>): (k: nat)
    decreases ts, 1
  {
    if ts == [] then 0 else TagCount(ts[0]) + TagCountAll(ts[1..])
  }

  /** A value has a node for every head except the tags. */
  lemma {:induction false} NodesCounted(t: Item)
    requires WellFormed(t)
    ensures Nodes(Meaning(t)) + TagCount(t) == HeadCount(t)
    decreases t, 0
  {
    hide AllWellFormed, MeaningAll, Pairs, HeadCountAll, TagCountAll, ValidHead;
    MajorTypes(t.head);
    var vs := MeaningAll(t.items);
    NodesCountedAll(t.items);
    if t.head.major == 5 { PairsKeepNodes(vs); }
    if t.head.major == 6 { OneNode(vs); }
    if t.items == [] { NoNodes(t.items); }
  }

  lemma MajorTypes(h: Head)
    requires ValidHead(h)
    ensures h.major in {0, 1, 2, 4, 5, 6}
  {
  }

  lemma OneNode(vs: seq<Value>)
    requires |vs| == 1
    ensures NodesAll(vs) == Nodes(vs[0])
  {
    assert vs[1..] == [];
  }

  lemma NoNodes(ts: seq<Item>)
    requires ts == []
    ensures HeadCountAll(ts) == 0 && TagCountAll(ts) == 0
  {
  }

  lemma {:induction false} NodesCountedAll(ts: seq<Item>)
    requires AllWellFormed(ts)
    ensures NodesAll(MeaningAll(ts)) + TagCountAll(ts) == HeadCountAll(ts)
    decreases ts, 1
  {
    hide WellFormed, Meaning, Nodes, HeadCount, TagCount;
    if ts != [] {
      NodesCounted(ts[0]);
      NodesCountedAll(ts[1..]);
      assert MeaningAll(ts)[1..] == MeaningAll(ts[1..]);
    }
  }

  lemma ParsedNodes(b: Bytes)
    ensures Parse(b).Some? ==> Nodes(Meaning(Parse(b).value)) <= |Flatten(Parse(b).value)|
  {
    hide Parse, Nodes, Meaning, Flatten, WellFormed;
    if Parse(b).Some? { NodesBounded(Parse(b).value); }
  }

  lemma {:induction false} NodesAllBounded(ts: seq<Item>)
    requires AllWellFormed(ts)
    ensures NodesAll(MeaningAll(ts)) <= |FlattenAll(ts)|
    decreases ts, 1
  {
    hide WellFormed, Flatten, Meaning, Nodes;
    if ts != [] {
      NodesBounded(ts[0]);
      NodesAllBounded(ts[1..]);
      assert MeaningAll(ts)[1..] == MeaningAll(ts[1..]);
    }
  }

  // ----- reader -----

  class CborReader {
    const bytes: Bytes
    var pos: nat

    ghost predicate Valid()
      reads this
    {
      pos <= |bytes| < TWO_63
    }

    constructor (bytes: Bytes)
      requires |bytes| < TWO_63
      ensures Valid() && this.bytes == bytes && pos == 0
    {
      this.bytes := bytes;
      pos := 0;
    }

    method ReadU8() returns (r: Option<Byte>)
      requires Valid()
      modifies this
      ensures Valid()
      ensures r == if old(pos) < |bytes| then Some(bytes[old(pos)]) else None
      ensures pos == old(pos) + if r.Some? then 1 else 0
    {
      if pos >= |bytes| {
        return None;
      }
      r := Some(bytes[pos]);
      pos := pos + 1;
    }

    method ReadBytes(n: U64) returns (r: Option<Bytes>)
      requires Valid()
      modifies this
      ensures Valid()
      ensures r == if old(pos) + n <= |bytes| then Some(bytes[old(pos)..old(pos) + n]) else None
      ensures pos == old(pos) + if r.Some? then n else 0
    {
      var end: nat := pos + n;
      if end >= TWO_64 || end > |bytes| {
        return None;
      }
      r := Some(bytes[pos..end]);
      pos := end;
    }

    predicate CheckCount(count: U64)
      requires Valid()
      reads this
    {
      count <= |bytes| - pos
    }

    method ReadUint(info: nat) returns (r: Option<U64>)
      requires Valid() && info < 32
      modifies this
      ensures Valid()
      ensures r.Some? <==> info <= 27 && old(pos) + Width(info) <= |bytes|
      ensures pos == old(pos) + if r.Some? then Width(info) else 0
      ensures r.Some? ==>
        r.value == if info <= 23 then info else FromBigEndian(bytes[old(pos)..pos])
    {
      match info {
        case 24 =>
          var b := ReadU8();
          if b.None? {
            return None;
          }
          assert bytes[old(pos)..pos] == [b.value];
          OneByte(b.value);
          r := Some(b.value);
        case 25 => r := ReadWide(2);
        case 26 => r := ReadWide(4);
        case 27 => r := ReadWide(8);
        case _ =>
          if info > 23 {
            return None;
          }
          r := Some(info);
      }
    }

    method ReadWide(w: nat) returns (r: Option<U64>)
      requires Valid() && w <= 8
      modifies this
      ensures Valid()
      ensures r.Some? <==> old(pos) + w <= |bytes|
      ensures pos == old(pos) + if r.Some? then w else 0
      ensures r.Some? ==> r.value == FromBigEndian(bytes[old(pos)..pos])
    {
      var b := ReadBytes(w);
      if b.None? {
        return None;
      }
      FromBigEndianBound(b.value);
      EightBytes(w);
      r := Some(FromBigEndian(b.value));
    }

    /** The initial byte and the argument, with which every supported item begins. */
    method ReadHead() returns (r: Option<Head>)
      requires Valid()
      modifies this
      ensures Valid() && r == ParseHead(bytes[old(pos)..])
      ensures r.Some? ==> pos == old(pos) + 1 + Width(r.value.info) && r.value.n < TWO_64
    {
      hide ParseHead, FromBigEndian;
      HeadAt(bytes, pos);
      var initial := ReadU8();
      if initial.None? {
        return None;
      }
      var major, info := initial.value / 32, initial.value % 32;
      if major !in {0, 1, 2, 4, 5, 6} {
        return None;
      }
      var n := ReadUint(info);
      if n.None? {
        return None;
      }
      return Some(Head(major, info, n.value));
    }

    /** Reads what the parser finds at the cursor, and nothing when it finds no item. */
    method Read() returns (r: Option<Value>)
      requires Valid()
      modifies this
      ensures Valid()
      ensures match Parse(bytes[old(pos)..])
              case None => r.None?
              case Some(t) => r == Some(Meaning(t)) && pos == old(pos) + |Flatten(t)|
      ensures r.Some? ==> old(pos) < pos && Nodes(r.value) <= pos - old(pos)
      decreases |bytes| - pos, 0
    {
      hide Parse, ParseHead, ParseMany, Flatten, FlattenAll, AllWellFormed, WellFormed, Meaning, MeaningAll, Pairs,
           Width, Nodes;
      ghost var b := bytes[pos..];
      ParsedNodes(b);
      NoHead(b);
      var head := ReadHead();
      if head.None? {
        return None;
      }
      ghost var h := head.value;
      MajorOf(b);
      var n: U64 := head.value.n;
      assert b[pos - old(pos)..] == bytes[pos..];
      match head.value.major {
        case 0 =>
          PlainItem(b, h);
          r := Some(Unsigned(n));
        case 1 =>
          PlainItem(b, h);
          r := Some(Negative(n));
        case 2 =>
          StringItem(b, h);
          ghost var at := pos;
          var content := ReadBytes(n);
          if content.None? {
            return None;
          }
          assert bytes[at..][..n] == bytes[at..pos];
          r := Some(ByteString(content.value));
        case 4 =>
          NestedItem(b, h);
          TooMany(bytes[pos..], n);
          if !CheckCount(n) {
            return None;
          }
          assert pos + n <= |bytes|; // bounds the capacity reserved
          var items := ReadItems(n);
          if items.None? {
            return None;
          }
          r := Some(Array(items.value));
        case 5 =>
          NestedItem(b, h);
          TooMany(bytes[pos..], 2 * n);
          if !CheckCount(n) {
            return None;
          }
          assert pos + n <= |bytes|; // bounds the capacity reserved
          var entries := ReadEntries(n);
          if entries.None? {
            return None;
          }
          r := Some(Map(entries.value));
        case _ =>
          NestedItem(b, h);
          OneItem(bytes[pos..]);
          r := Read();
      }
    }

    method ReadItems(count: nat) returns (r: Option<seq<Value>>)
      requires Valid()
      modifies this
      ensures Valid()
      ensures match ParseMany(bytes[old(pos)..], count)
              case None => r.None?
              case Some(ts) => r == Some(MeaningAll(ts)) && pos == old(pos) + |FlattenAll(ts)|
      decreases |bytes| - pos, 1
    {
      hide Parse, ParseMany, Flatten, FlattenAll, AllWellFormed, WellFormed, Meaning, MeaningAll, Pairs, Reading;
      var items: seq<Value> := [];
      ghost var done: seq<Item> := [];
      ReadingStart(bytes, pos, count);
      var i := 0;
      while i < count
        invariant i <= count && Valid() && old(pos) <= pos
        invariant Reading(bytes, old(pos), pos, count, done, items, count - i)
      {
        ghost var at := pos;
        var item := Read();
        if item.None? {
          ReadingFails(bytes, old(pos), at, count, done, items, count - i);
          return None;
        }
        ReadingStep(bytes, old(pos), at, count, done, items, count - i);
        done := done + [Parse(bytes[at..]).value];
        items := items + [item.value];
        i := i + 1;
      }
      ReadingEnds(bytes, old(pos), pos, count, done, items);
      return Some(items);
    }

    method ReadEntries(count: nat) returns (r: Option<seq<Entry>>)
      requires Valid()
      modifies this
      ensures Valid()
      ensures match ParseMany(bytes[old(pos)..], 2 * count)
              case None => r.None?
              case Some(ts) => r == Some(Pairs(MeaningAll(ts))) && pos == old(pos) + |FlattenAll(ts)|
      decreases |bytes| - pos, 1
    {
      hide Parse, ParseMany, Flatten, FlattenAll, AllWellFormed, WellFormed, Meaning, MeaningAll, Pairs, Reading;
      var entries: seq<Entry> := [];
      ghost var done: seq<Item> := [];
      ghost var values: seq<Value> := [];
      ReadingStart(bytes, pos, 2 * count);
      NoPairs();
      var i := 0;
      while i < count
        invariant i <= count && Valid() && old(pos) <= pos
        invariant Reading(bytes, old(pos), pos, 2 * count, done, values, 2 * (count - i))
        invariant |values| == 2 * i && entries == Pairs(values)
      {
        ghost var at := pos;
        var key := Read();
        if key.None? {
          ReadingFails(bytes, old(pos), at, 2 * count, done, values, 2 * (count - i));
          return None;
        }
        ReadingStep(bytes, old(pos), at, 2 * count, done, values, 2 * (count - i));
        done := done + [Parse(bytes[at..]).value];
        at := pos;
        var value := Read();
        if value.None? {
          ReadingFails(bytes, old(pos), at, 2 * count, done, values + [key.value], 2 * (count - i) - 1);
          return None;
        }
        ReadingStep(bytes, old(pos), at, 2 * count, done, values + [key.value], 2 * (count - i) - 1);
        done := done + [Parse(bytes[at..]).value];
        PairsAppend(values, key.value, value.value);
        values := values + [key.value] + [value.value];
        entries := entries + [Entry(key.value, value.value)];
        i := i + 1;
      }
      ReadingEnds(bytes, old(pos), pos, 2 * count, done, values);
      return Some(entries);
    }
  }

  // ----- a sequence of items half read -----

  ghost function Prepend(done: seq<Item>, r: Option<seq<Item>>): (p: Option<seq<Item>>)
  {
    if r.None? then None else Some(done + r.value)
  }

  /** Of the k items at start, those in done are read, up to pos; todo are left. */
  ghost predicate Reading(bytes: Bytes, start: nat, pos: nat, k: nat, done: seq<Item>, values: seq<Value>, todo: nat)
  {
    && AllWellFormed(done) && values == MeaningAll(done)
    && pos == start + |FlattenAll(done)| && pos <= |bytes|
    && ParseMany(bytes[start..], k) == Prepend(done, ParseMany(bytes[pos..], todo))
  }

  lemma ReadingStart(bytes: Bytes, start: nat, k: nat)
    requires start <= |bytes|
    ensures Reading(bytes, start, start, k, [], [], k)
  {
    hide Parse;
    var r := ParseMany(bytes[start..], k);
    assert r.Some? ==> [] + r.value == r.value;
  }

  lemma ReadingStep(bytes: Bytes, start: nat, pos: nat, k: nat, done: seq<Item>, values: seq<Value>, todo: nat)
    requires Reading(bytes, start, pos, k, done, values, todo) && todo > 0
    requires pos <= |bytes| && Parse(bytes[pos..]).Some?
    ensures
      var t := Parse(bytes[pos..]).value;
      Reading(bytes, start, pos + |Flatten(t)|, k, done + [t], values + [Meaning(t)], todo - 1)
  {
    hide Parse, Flatten, Meaning, WellFormed, AllWellFormed, FlattenAll, MeaningAll;
    var t := Parse(bytes[pos..]).value;
    AppendItem(done, t);
    var next := bytes[pos..][|Flatten(t)|..];
    assert next == bytes[pos + |Flatten(t)|..];
    var r := ParseMany(next, todo - 1);
    assert r.Some? ==> done + ([t] + r.value) == done + [t] + r.value;
  }

  lemma ReadingFails(bytes: Bytes, start: nat, pos: nat, k: nat, done: seq<Item>, values: seq<Value>, todo: nat)
    requires Reading(bytes, start, pos, k, done, values, todo) && todo > 0
    requires start <= pos <= |bytes| && Parse(bytes[pos..]).None?
    ensures ParseMany(bytes[start..], k).None?
  {
    hide Parse, AllWellFormed, FlattenAll, MeaningAll;
  }

  lemma ReadingEnds(bytes: Bytes, start: nat, pos: nat, k: nat, done: seq<Item>, values: seq<Value>)
    requires Reading(bytes, start, pos, k, done, values, 0) && start <= pos <= |bytes|
    ensures ParseMany(bytes[start..], k) == Some(done) && AllWellFormed(done)
    ensures values == MeaningAll(done) && pos == start + |FlattenAll(done)|
  {
    hide Parse, AllWellFormed, FlattenAll, MeaningAll;
    assert done + [] == done;
  }

  lemma {:induction false} AppendItem(ts: seq<Item>, t: Item)
    requires AllWellFormed(ts) && WellFormed(t)
    ensures AllWellFormed(ts + [t])
    ensures |FlattenAll(ts + [t])| == |FlattenAll(ts)| + |Flatten(t)|
    ensures MeaningAll(ts + [t]) == MeaningAll(ts) + [Meaning(t)]
  {
    hide WellFormed, Flatten, Meaning;
    if ts == [] {
      assert [] + [t] == [t] && [t][1..] == [];
    } else {
      AppendItem(ts[1..], t);
      assert (ts + [t])[1..] == ts[1..] + [t];
    }
  }

  lemma NoPairs()
    ensures Pairs([]) == []
  {
  }

  lemma {:induction false} PairsAppend(vs: seq<Value>, a: Value, b: Value)
    requires |vs| % 2 == 0
    ensures Pairs(vs + [a] + [b]) == Pairs(vs) + [Entry(a, b)]
  {
    if |vs| == 0 {
      assert vs + [a] + [b] == [a, b] && [a, b][2..] == [];
    } else {
      PairsAppend(vs[2..], a, b);
      assert (vs + [a] + [b])[2..] == vs[2..] + [a] + [b];
    }
  }

  // ----- what each head leads to -----

  lemma HeadAt(bytes: Bytes, at: nat)
    requires at <= |bytes|
    ensures at == |bytes| ==> ParseHead(bytes[at..]).None?
    ensures at < |bytes| ==>
      var major, info := bytes[at] / 32, bytes[at] % 32;
      var end := at + 1 + Width(info);
      ParseHead(bytes[at..]) ==
        if major !in {0, 1, 2, 4, 5, 6} || info > 27 || end > |bytes| then None
        else Some(Head(major, info, if info <= 23 then info else FromBigEndian(bytes[at + 1..end])))
  {
    hide FromBigEndian;
    var b := bytes[at..];
    if at < |bytes| && at + 1 + Width(b[0] % 32) <= |bytes| {
      assert b[1..1 + Width(b[0] % 32)] == bytes[at + 1..at + 1 + Width(b[0] % 32)];
    }
  }

  lemma MajorOf(b: Bytes)
    ensures ParseHead(b).Some? ==> ParseHead(b).value.major in {0, 1, 2, 4, 5, 6}
  {
    hide Width, FromBigEndian;
  }

  lemma NoHead(b: Bytes)
    ensures ParseHead(b).None? ==> Parse(b).None?
  {
    hide ParseHead, ParseMany, Flatten, WellFormed;
  }

  lemma PlainItem(b: Bytes, h: Head)
    requires ParseHead(b) == Some(h) && h.major < 2
    ensures
      var t := Item(h, [], []);
      && Parse(b) == Some(t) && |Flatten(t)| == 1 + Width(h.info)
      && Meaning(t) == if h.major == 0 then Unsigned(h.n) else Negative(h.n)
  {
    hide Parse, ParseHead, HeadBytes, Pow256;
    ParsedHead(b);
    ParseUnfold(b);
  }

  lemma StringItem(b: Bytes, h: Head)
    requires ParseHead(b) == Some(h) && h.major == 2
    ensures
      var w := 1 + Width(h.info);
      if w + h.n <= |b| then
        var t := Item(h, b[w..][..h.n], []);
        Parse(b) == Some(t) && |Flatten(t)| == w + h.n && Meaning(t) == ByteString(t.content)
      else Parse(b).None?
  {
    hide Parse, ParseHead, HeadBytes, Pow256;
    ParsedHead(b);
    ParseUnfold(b);
  }

  lemma NestedItem(b: Bytes, h: Head)
    requires ParseHead(b) == Some(h) && h.major >= 4
    ensures 1 + Width(h.info) <= |b|
    ensures
      match ParseMany(b[1 + Width(h.info)..], Arity(h))
      case None => Parse(b).None?
      case Some(ts) =>
        var t := Item(h, [], ts);
        && Parse(b) == Some(t) && |Flatten(t)| == 1 + Width(h.info) + |FlattenAll(ts)|
        && |ts| == Arity(h)
        && Meaning(t) == (if h.major == 4 then Array(MeaningAll(ts))
                          else if h.major == 5 then Map(Pairs(MeaningAll(ts)))
                          else MeaningAll(ts)[0])
  {
    hide *;
    ParsedHead(b);
    NestedParse(b, h);
    var ts := ParseMany(b[1 + Width(h.info)..], Arity(h));
    if ts.Some? { NestedMeaning(h, ts.value); }
  }

  lemma NestedParse(b: Bytes, h: Head)
    requires ParseHead(b) == Some(h) && h.major >= 4 && ValidHead(h) && HeadBytes(h) <= b
    ensures 1 + Width(h.info) <= |b|
    ensures
      var r := ParseMany(b[1 + Width(h.info)..], Arity(h));
      Parse(b) == if r.None? then None else Some(Item(h, [], r.value))
  {
    hide *;
    ParseUnfold(b);
  }

  lemma NestedMeaning(h: Head, ts: seq<Item>)
    requires ValidHead(h) && h.major >= 4 && |ts| == Arity(h) && AllWellFormed(ts)
    ensures
      var t := Item(h, [], ts);
      && WellFormed(t) && |Flatten(t)| == 1 + Width(h.info) + |FlattenAll(ts)|
      && Meaning(t) == (if h.major == 4 then Array(MeaningAll(ts))
                        else if h.major == 5 then Map(Pairs(MeaningAll(ts)))
                        else MeaningAll(ts)[0])
  {
    hide HeadBytes, FlattenAll, AllWellFormed, MeaningAll, Pairs, Pow256;
  }

  /** Every item takes at least a byte, so the count guard turns away nothing readable. */
  lemma TooMany(b: Bytes, k: nat)
    ensures ParseMany(b, k).Some? ==> k <= |b|
  {
    hide ParseMany, FlattenAll, AllWellFormed;
  }

  lemma OneItem(b: Bytes)
    ensures
      match Parse(b)
      case None => ParseMany(b, 1).None?
      case Some(t) =>
        && ParseMany(b, 1) == Some([t])
        && MeaningAll([t]) == [Meaning(t)] && |FlattenAll([t])| == |Flatten(t)|
  {
    hide Parse, Flatten, Meaning, WellFormed;
    if Parse(b).Some? {
      var t := Parse(b).value;
      assert ParseMany(b[|Flatten(t)|..], 0) == Some([]);
      assert [t] + [] == [t] && [t][1..] == [];
    }
  }

  lemma OneByte(b: Byte)
    ensures FromBigEndian([b]) == b
  {
  }

  lemma EightBytes(w: nat)
    requires w <= 8
    ensures Pow256(w) <= TWO_64
  {
    assert Pow256(8) == TWO_64;
    PowGrows(w, 8);
  }

  lemma {:induction false} PowGrows(a: nat, b: nat)
    requires a <= b
    ensures Pow256(a) <= Pow256(b)
  {
    if a < b { PowGrows(a, b - 1); }
  }
}
