/**
 The predicate language: its concrete syntax with free spacing, and a parser that
 accepts exactly that syntax up to the depth limit. Which letters and digits beyond
 ASCII are alphanumeric is the parameter alnum.
 */
module PredicateGrammar {
  import opened Common

  datatype Predicate =
    | MinCount(attribute: string, count: nat)
    | MinDistinct(attribute: string, count: nat)
    | NoneHas(attribute: string)
    | AnyHas(attribute: string)
    | AllHave(attribute: string)
    | And(all: seq<Predicate>)
    | Or(some: seq<Predicate>)
    | Not(inner: Predicate)

  datatype ParseError =
    | UnexpectedEof | UnexpectedChar | UnknownFunction | NumberParse
    | DepthExceeded(depth: nat, max: nat)

  const MAX_DEPTH: nat := 32
  const USIZE_LIMIT: nat := 0x1_0000_0000_0000_0000

  // ----- characters -----

  /** The Unicode White_Space property. */
  predicate IsSpace(c: char)
  {
    || '\U{9}' <= c <= '\U{D}' || c in {' ', '\U{85}', '\U{A0}', '\U{1680}'}
    || '\U{2000}' <= c <= '\U{200A}'
    || c in {'\U{2028}', '\U{2029}', '\U{202F}', '\U{205F}', '\U{3000}'}
  }

  /** Its 25 characters. */
  lemma Spaces(c: char)
    ensures IsSpace(c) <==>
      c in ['\U{9}', '\U{A}', '\U{B}', '\U{C}', '\U{D}', '\U{20}', '\U{85}', '\U{A0}', '\U{1680}',
            '\U{2000}', '\U{2001}', '\U{2002}', '\U{2003}', '\U{2004}', '\U{2005}', '\U{2006}', '\U{2007}',
            '\U{2008}', '\U{2009}', '\U{200A}', '\U{2028}', '\U{2029}', '\U{202F}', '\U{205F}', '\U{3000}']
  {
  }

  predicate AllSpace(w: string)
  {
    forall i :: 0 <= i < |w| ==> IsSpace(w[i])
  }

  predicate IsDigit(c: char)
  {
    '0' <= c <= '9'
  }

  predicate AllDigits(s: string)
  {
    forall i :: 0 <= i < |s| ==> IsDigit(s[i])
  }

  predicate IsIdent(alnum: char -> bool, c: char)
  {
    alnum(c) || c == '_'
  }

  /** What is used of the alphanumeric property: the lower-case letters have it,
      the opening parenthesis and spaces do not. */
  ghost predicate AlnumLike(alnum: char -> bool)
  {
    && (forall c :: 'a' <= c <= 'z' ==> alnum(c))
    && !alnum('(')
    && forall c :: IsSpace(c) ==> !alnum(c)
  }

  /** The ASCII letters and digits are such a property. */
  lemma AsciiIsAlnumLike()
    ensures AlnumLike(c => 'a' <= c <= 'z' || 'A' <= c <= 'Z' || '0' <= c <= '9')
  {
  }

  /** How many leading characters satisfy f. */
  function Leading(f: char -> bool, s: string): (n: nat)
    ensures n <= |s|
    ensures forall i :: 0 <= i < n ==> f(s[i])
    ensures n < |s| ==> !f(s[n])
  {
    if s == "" || !f(s[0]) then 0 else 1 + Leading(f, s[1..])
  }

  lemma {:induction false} LeadingOf(f: char -> bool, w: string, rest: string)
    requires forall i :: 0 <= i < |w| ==> f(w[i])
    requires rest == "" || !f(rest[0])
    ensures Leading(f, w + rest) == |w|
  {
    if w == "" {
      assert w + rest == rest;
    } else {
      assert (w + rest)[1..] == w[1..] + rest;
      LeadingOf(f, w[1..], rest);
    }
  }

  // ----- tokens -----

  datatype Token = Token(text: string, rest: string)

  /** Spaces, then the character c. */
  function Eat(s: string, c: char): (r: Option<Token>)
  {
    var n := Leading(IsSpace, s);
    if n < |s| && s[n] == c then Some(Token(s[..n], s[n + 1..])) else None
  }

  lemma EatExactly(s: string, c: char, w: string, rest: string)
    requires !IsSpace(c)
    ensures Eat(s, c) == Some(Token(w, rest)) <==> AllSpace(w) && s == w + ([c] + rest)
  {
    if AllSpace(w) && s == w + ([c] + rest) {
      LeadingOf(IsSpace, w, [c] + rest);
      assert s[..|w|] == w && s[|w| + 1..] == rest;
    }
    var n := Leading(IsSpace, s);
    if n < |s| && s[n] == c {
      assert s == s[..n] + ([c] + s[n + 1..]);
    }
  }

  /** A run of digits, up to the first other character. */
  function Digits(s: string): (r: Option<Token>)
  {
    var n := Leading(IsDigit, s);
    if n == 0 then None else Some(Token(s[..n], s[n..]))
  }

  /** The text up to the closing quote. */
  function UntilQuote(s: string): (r: Option<Token>)
  {
    var n := Leading(c => c != '"', s);
    if n == |s| then None else Some(Token(s[..n], s[n + 1..]))
  }

  lemma QuoteExactly(s: string, a: string, rest: string)
    ensures UntilQuote(s) == Some(Token(a, rest)) <==> '"' !in a && s == a + (['"'] + rest)
  {
    var f := c => c != '"';
    if '"' !in a && s == a + (['"'] + rest) {
      LeadingOf(f, a, ['"'] + rest);
      assert s[..|a|] == a && s[|a| + 1..] == rest;
    }
    var n := Leading(f, s);
    if n < |s| {
      assert s == s[..n] + (['"'] + s[n + 1..]);
    }
  }

  lemma DigitsExactly(s: string, d: string, rest: string)
    ensures Digits(s) == Some(Token(d, rest)) <==>
      d != "" && AllDigits(d) && s == d + rest && (rest == "" || !IsDigit(rest[0]))
  {
    if AllDigits(d) && s == d + rest && (rest == "" || !IsDigit(rest[0])) {
      LeadingOf(IsDigit, d, rest);
      assert s[..|d|] == d && s[|d|..] == rest;
    }
    var n := Leading(IsDigit, s);
    assert s == s[..n] + s[n..];
  }

  /** The number a run of digits writes. */
  function Number(d: string): (n: nat)
    requires AllDigits(d)
  {
    if d == "" then 0 else 10 * Number(d[..|d| - 1]) + (d[|d| - 1] - '0') as nat
  }

  // ----- concrete syntax -----

  /** Every field but name, attr and digits holds the spaces at that place. */
  datatype Tree = Node(lead: string, name: string, gap: string, body: Body)

  datatype Body =
    | Attribute(open: string, attr: string, close: string)
    | Counted(open: string, attr: string, comma: string, before: string, digits: string, close: string)
    | Args(args: ArgList)
    | Inner(tree: Tree, close: string)

  datatype ArgList =
    | End(close: string)
    | Last(arg: Tree, close: string)
    | More(arg: Tree, comma: string, rest: ArgList)

  predicate IsAttributeName(name: string)
  {
    name == "none" || name == "any" || name == "all"
  }

  predicate IsCountName(name: string)
  {
    name == "min_count" || name == "min_distinct"
  }

  predicate IsJunctionName(name: string)
  {
    name == "and" || name == "or"
  }

  predicate IsNegationName(name: string)
  {
    name == "not"
  }

  predicate WellFormed(t: Tree)
    decreases t, 1
  {
    AllSpace(t.lead) && AllSpace(t.gap) && WellFormedBody(t.name, t.body)
  }

  predicate WellFormedBody(name: string, b: Body)
    decreases b, 1
  {
    match b
    case Attribute(open, attr, close) =>
      IsAttributeName(name) && AllSpace(open) && '"' !in attr && AllSpace(close)
    case Counted(open, attr, comma, before, digits, close) =>
      && IsCountName(name) && AllSpace(open) && '"' !in attr && AllSpace(comma) && AllSpace(before)
      && digits != "" && AllDigits(digits) && Number(digits) < USIZE_LIMIT && AllSpace(close)
    case Args(args) => IsJunctionName(name) && WellFormedArgs(args)
    case Inner(t, close) => IsNegationName(name) && WellFormed(t) && AllSpace(close)
  }

  predicate WellFormedArgs(a: ArgList)
    decreases a, 1
  {
    match a
    case End(close) => AllSpace(close)
    case Last(t, close) => WellFormed(t) && AllSpace(close)
    case More(t, comma, rest) => WellFormed(t) && AllSpace(comma) && WellFormedArgs(rest)
  }

  /** The text of a tree followed by rest. */
  function Emit(t: Tree, rest: string): (s: string)
    decreases t, 1
  {
    t.lead + (t.name + (t.gap + (['('] + EmitBody(t.body, rest))))
  }

  function EmitBody(b: Body, rest: string): (s: string)
    decreases b, 1
  {
    match b
    case Attribute(open, attr, close) =>
      open + (['"'] + (attr + (['"'] + (close + ([')'] + rest)))))
    case Counted(open, attr, comma, before, digits, close) =>
      open + (['"'] + (attr + (['"'] + (comma + ([','] + (before + (digits + (close + ([')'] + rest)))))))))
    case Args(args) => EmitArgs(args, rest)
    case Inner(t, close) => Emit(t, close + ([')'] + rest))
  }

  function EmitArgs(a: ArgList, rest: string): (s: string)
    decreases a, 1
  {
    match a
    case End(close) => close + ([')'] + rest)
    case Last(t, close) => Emit(t, close + ([')'] + rest))
    case More(t, comma, more) => Emit(t, comma + ([','] + EmitArgs(more, rest)))
  }

  function Meaning(t: Tree): (p: Predicate)
    requires WellFormed(t)
    decreases t, 1
  {
    MeaningBody(t.name, t.body)
  }

  function MeaningBody(name: string, b: Body): (p: Predicate)
    requires WellFormedBody(name, b)
    decreases b, 1
  {
    match b
    case Attribute(_, attr, _) =>
      if name == "none" then NoneHas(attr) else if name == "any" then AnyHas(attr) else AllHave(attr)
    case Counted(_, attr, _, _, digits, _) =>
      if name == "min_count" then MinCount(attr, Number(digits)) else MinDistinct(attr, Number(digits))
    case Args(args) =>
      if name == "and" then And(MeaningArgs(args)) else Or(MeaningArgs(args))
    case Inner(inner, _) => Not(Meaning(inner))
  }

  function MeaningArgs(a: ArgList): (ps: seq<Predicate>)
    requires WellFormedArgs(a)
    decreases a, 1
  {
    match a
    case End(_) => []
    case Last(t, _) => [Meaning(t)]
    case More(t, _, rest) => [Meaning(t)] + MeaningArgs(rest)
  }

  function Max(a: nat, b: nat): (m: nat)
  {
    if a < b then b else a
  }

  function TreeHeight(t: Tree): (h: nat)
    ensures h > 0
    decreases t, 1
  {
    1 + BodyHeight(t.body)
  }

  function BodyHeight(b: Body): (h: nat)
    decreases b, 1
  {
    match b
    case Args(args) => ArgsHeight(args)
    case Inner(inner, _) => TreeHeight(inner)
    case _ => 0
  }

  function ArgsHeight(a: ArgList): (h: nat)
    decreases a, 1
  {
    match a
    case End(_) => 0
    case Last(t, _) => TreeHeight(t)
    case More(t, _, rest) => Max(TreeHeight(t), ArgsHeight(rest))
  }

  // ----- parser -----

  datatype Header = Header(lead: string, name: string, gap: string, rest: string)

  function ParseHeader(alnum: char -> bool, s: string): (r: Result<Header, ParseError>)
  {
    var lead := Leading(IsSpace, s);
    var s1 := s[lead..];
    var k := Leading(c => IsIdent(alnum, c), s1);
    if k == 0 then Err(UnexpectedEof)
    else
      match Eat(s1[k..], '(')
      case None => Err(UnexpectedChar)
      case Some(e) => Ok(Header(s[..lead], s1[..k], e.text, e.rest))
  }

  function ParseQuoted(s: string): (r: Result<(string, string, string), ParseError>)
  {
    match Eat(s, '"')
    case None => Err(UnexpectedChar)
    case Some(q) =>
      match UntilQuote(q.rest)
      case None => Err(UnexpectedEof)
      case Some(a) => Ok((q.text, a.text, a.rest))
  }

  function ParseAttribute(s: string): (r: Result<(Body, string), ParseError>)
  {
    match ParseQuoted(s)
    case Err(e) => Err(e)
    case Ok((open, attr, s1)) =>
      match Eat(s1, ')')
      case None => Err(UnexpectedChar)
      case Some(c) => Ok((Attribute(open, attr, c.text), c.rest))
  }

  function ParseCounted(s: string): (r: Result<(Body, string), ParseError>)
  {
    match ParseQuoted(s)
    case Err(e) => Err(e)
    case Ok((open, attr, s1)) =>
      match Eat(s1, ',')
      case None => Err(UnexpectedChar)
      case Some(m) =>
        var n := Leading(IsSpace, m.rest);
        match Digits(m.rest[n..])
        case None => Err(NumberParse)
        case Some(d) =>
          match Eat(d.rest, ')')
          case None => Err(UnexpectedChar)
          case Some(c) =>
            if AllDigits(d.text) && Number(d.text) < USIZE_LIMIT then
              Ok((Counted(open, attr, m.text, m.rest[..n], d.text, c.text), c.rest))
            else Err(NumberParse)
  }

  /** Fails at the depth limit; on success s is the text of the tree followed by what is left. */
  function ParseTree(alnum: char -> bool, s: string, depth: nat): (r: Result<(Tree, string), ParseError>)
    ensures r.Ok? ==>
      WellFormed(r.value.0) && depth + TreeHeight(r.value.0) <= MAX_DEPTH && s == Emit(r.value.0, r.value.1)
    decreases |s|, 0
  {
    hide ParseHeader, WellFormedBody, BodyHeight, EmitBody, AllSpace;
    if depth >= MAX_DEPTH then Err(DepthExceeded(depth, MAX_DEPTH))
    else
      HeaderSound(alnum, s);
      match ParseHeader(alnum, s)
      case Err(e) => Err(e)
      case Ok(h) =>
        match ParseBody(alnum, h.name, h.rest, depth)
        case Err(e) => Err(e)
        case Ok((b, rest)) => Ok((Node(h.lead, h.name, h.gap, b), rest))
  }

  function ParseBody(alnum: char -> bool, name: string, s: string, depth: nat): (r: Result<(Body, string), ParseError>)
    requires depth < MAX_DEPTH
    ensures r.Ok? ==>
      && WellFormedBody(name, r.value.0) && depth + 1 + BodyHeight(r.value.0) <= MAX_DEPTH
      && s == EmitBody(r.value.0, r.value.1)
    decreases |s|, 2
  {
    hide *;
    if IsAttributeName(name) then
      AttributeSound(name, s);
      ParseAttribute(s)
    else if IsCountName(name) then
      CountedSound(name, s);
      ParseCounted(s)
    else if IsJunctionName(name) then
      match ParseArgs(alnum, s, depth)
      case Err(e) => Err(e)
      case Ok((args, rest)) => ArgsBody(name, args, rest); Ok((Args(args), rest))
    else if IsNegationName(name) then
      match ParseTree(alnum, s, depth + 1)
      case Err(e) => Err(e)
      case Ok((t, s1)) =>
        NotSpaces();
        EatSound(s1, ')');
        match Eat(s1, ')')
        case None => Err(UnexpectedChar)
        case Some(c) => InnerBody(name, t, c.text, c.rest); Ok((Inner(t, c.text), c.rest))
    else Err(UnknownFunction)
  }

  function ParseArgs(alnum: char -> bool, s: string, depth: nat): (r: Result<(ArgList, string), ParseError>)
    requires depth < MAX_DEPTH
    ensures r.Ok? ==>
      && WellFormedArgs(r.value.0) && depth + 1 + ArgsHeight(r.value.0) <= MAX_DEPTH
      && s == EmitArgs(r.value.0, r.value.1)
    decreases |s|, 1
  {
    hide *;
    NotSpaces();
    EatSound(s, ')');
    match Eat(s, ')')
    case Some(c) => EndArgs(c.text, c.rest); Ok((End(c.text), c.rest))
    case None =>
      match ParseTree(alnum, s, depth + 1)
      case Err(e) => Err(e)
      case Ok((t, s1)) =>
        EmitGrows(t, s1);
        EatSound(s1, ',');
        EatSound(s1, ')');
        match Eat(s1, ',')
        case Some(m) =>
          (match ParseArgs(alnum, m.rest, depth)
           case Err(e) => Err(e)
           case Ok((more, rest)) => MoreArgs(t, m.text, more, rest); Ok((More(t, m.text, more), rest)))
        case None =>
          match Eat(s1, ')')
          case Some(c) => LastArg(t, c.text, c.rest); Ok((Last(t, c.text), c.rest))
          case None => Err(UnexpectedEof)
  }

  lemma ArgsBody(name: string, args: ArgList, rest: string)
    requires IsJunctionName(name) && WellFormedArgs(args)
    ensures
      var b := Args(args);
      WellFormedBody(name, b) && BodyHeight(b) == ArgsHeight(args) && EmitBody(b, rest) == EmitArgs(args, rest)
  {
    hide IsJunctionName;
  }

  lemma InnerBody(name: string, t: Tree, close: string, rest: string)
    requires IsNegationName(name) && WellFormed(t) && AllSpace(close)
    ensures
      var b := Inner(t, close);
      && WellFormedBody(name, b) && BodyHeight(b) == TreeHeight(t)
      && EmitBody(b, rest) == Emit(t, close + ([')'] + rest))
  {
    hide IsNegationName, WellFormed, Emit, TreeHeight, AllSpace;
  }

  lemma EndArgs(close: string, rest: string)
    requires AllSpace(close)
    ensures
      var a := End(close);
      WellFormedArgs(a) && ArgsHeight(a) == 0 && EmitArgs(a, rest) == close + ([')'] + rest)
  {
  }

  lemma LastArg(t: Tree, close: string, rest: string)
    requires WellFormed(t) && AllSpace(close)
    ensures
      var a := Last(t, close);
      WellFormedArgs(a) && ArgsHeight(a) == TreeHeight(t) && EmitArgs(a, rest) == Emit(t, close + ([')'] + rest))
  {
    hide WellFormed, Emit, TreeHeight, AllSpace;
  }

  lemma MoreArgs(t: Tree, comma: string, more: ArgList, rest: string)
    requires WellFormed(t) && AllSpace(comma) && WellFormedArgs(more)
    ensures
      var a := More(t, comma, more);
      && WellFormedArgs(a) && ArgsHeight(a) == (if TreeHeight(t) < ArgsHeight(more) then ArgsHeight(more) else TreeHeight(t))
      && EmitArgs(a, rest) == Emit(t, comma + ([','] + EmitArgs(more, rest)))
  {
    hide WellFormed, Emit, TreeHeight, AllSpace;
  }

  lemma EmitGrows(t: Tree, rest: string)
    ensures |Emit(t, rest)| > |rest|
  {
    BodyGrows(t.body, rest);
  }

  lemma BodyGrows(b: Body, rest: string)
    ensures |EmitBody(b, rest)| >= |rest|
  {
    match b
    case Attribute(_, _, _) =>
    case Counted(_, _, _, _, _, _) =>
    case Args(args) => ArgsGrow(args, rest);
    case Inner(t, close) => EmitGrows(t, close + ([')'] + rest));
  }

  lemma ArgsGrow(a: ArgList, rest: string)
    ensures |EmitArgs(a, rest)| >= |rest|
  {
    match a
    case End(_) =>
    case Last(t, close) => EmitGrows(t, close + ([')'] + rest));
    case More(t, comma, more) =>
      ArgsGrow(more, rest);
      EmitGrows(t, comma + ([','] + EmitArgs(more, rest)));
  }

  lemma EatSound(s: string, c: char)
    requires !IsSpace(c)
    ensures Eat(s, c).Some? ==>
      var e := Eat(s, c).value;
      AllSpace(e.text) && s == e.text + ([c] + e.rest)
  {
    hide Eat;
    if Eat(s, c).Some? { EatExactly(s, c, Eat(s, c).value.text, Eat(s, c).value.rest); }
  }

  lemma EatOther(w: string, c: char, other: char, rest: string)
    requires AllSpace(w) && !IsSpace(c) && c != other
    ensures Eat(w + ([c] + rest), other) == None
  {
    hide IsSpace;
    LeadingOf(IsSpace, w, [c] + rest);
  }

  lemma HeaderSound(alnum: char -> bool, s: string)
    ensures ParseHeader(alnum, s).Ok? ==>
      var h := ParseHeader(alnum, s).value;
      && AllSpace(h.lead) && AllSpace(h.gap) && |h.rest| < |s|
      && s == h.lead + (h.name + (h.gap + (['('] + h.rest)))
  {
    hide Eat, IsSpace, IsIdent;
    if ParseHeader(alnum, s).Ok? {
      var s1 := s[Leading(IsSpace, s)..];
      var k := Leading(c => IsIdent(alnum, c), s1);
      NotSpaces();
      EatSound(s1[k..], '(');
      assert s == s[..Leading(IsSpace, s)] + s1 && s1 == s1[..k] + s1[k..];
    }
  }

  lemma NotSpaces()
    ensures !IsSpace('(') && !IsSpace(')') && !IsSpace(',') && !IsSpace('"') && !IsSpace('_')
    ensures forall c | IsDigit(c) :: !IsSpace(c)
  {
  }

  lemma QuotedSound(s: string)
    ensures ParseQuoted(s).Ok? ==>
      var (open, attr, rest) := ParseQuoted(s).value;
      AllSpace(open) && '"' !in attr && s == open + (['"'] + (attr + (['"'] + rest)))
  {
    hide Eat, UntilQuote;
    if ParseQuoted(s).Ok? {
      EatSound(s, '"');
      var q := Eat(s, '"').value;
      var a := UntilQuote(q.rest).value;
      QuoteExactly(q.rest, a.text, a.rest);
    }
  }

  lemma AttributeSound(name: string, s: string)
    requires IsAttributeName(name)
    ensures ParseAttribute(s).Ok? ==>
      var (b, rest) := ParseAttribute(s).value;
      WellFormedBody(name, b) && BodyHeight(b) == 0 && s == EmitBody(b, rest)
  {
    hide ParseQuoted, Eat, AllSpace, IsAttributeName;
    if ParseAttribute(s).Ok? {
      QuotedSound(s);
      EatSound(ParseQuoted(s).value.2, ')');
    }
  }

  lemma CountedSound(name: string, s: string)
    requires IsCountName(name)
    ensures ParseCounted(s).Ok? ==>
      var (b, rest) := ParseCounted(s).value;
      WellFormedBody(name, b) && BodyHeight(b) == 0 && s == EmitBody(b, rest)
  {
    hide ParseQuoted, Eat, IsCountName, Digits, AllDigits, Number;
    if ParseCounted(s).Ok? {
      QuotedSound(s);
      var s1 := ParseQuoted(s).value.2;
      EatSound(s1, ',');
      var m := Eat(s1, ',').value;
      var n := Leading(IsSpace, m.rest);
      var d := Digits(m.rest[n..]).value;
      DigitsExactly(m.rest[n..], d.text, d.rest);
      EatSound(d.rest, ')');
      assert m.rest == m.rest[..n] + m.rest[n..];
    }
  }

  // ----- every tree is accepted -----

  predicate IsName(name: string)
  {
    IsAttributeName(name) || IsCountName(name) || IsJunctionName(name) || IsNegationName(name)
  }

  lemma NameChars(alnum: char -> bool, name: string)
    requires AlnumLike(alnum) && IsName(name)
    ensures name != ""
    ensures forall i :: 0 <= i < |name| ==> IsIdent(alnum, name[i]) && name[i] != ')' && !IsSpace(name[i])
  {
    forall i | 0 <= i < |name|
      ensures 'a' <= name[i] <= 'z' || name[i] == '_'
    {
    }
  }

  lemma HeaderComplete(alnum: char -> bool, lead: string, name: string, gap: string, rest: string)
    requires AlnumLike(alnum) && IsName(name) && AllSpace(lead) && AllSpace(gap)
    ensures
      var s := lead + (name + (gap + (['('] + rest)));
      ParseHeader(alnum, s) == Ok(Header(lead, name, gap, rest)) && Eat(s, ')') == None
  {
    hide Eat, IsName, IsSpace;
    NameChars(alnum, name);
    NotSpaces();
    var tail := gap + (['('] + rest);
    var s1 := name + tail;
    var s := lead + s1;
    LeadingOf(IsSpace, lead, s1);
    assert s[..|lead|] == lead && s[|lead|..] == s1;
    var ident := c => IsIdent(alnum, c);
    assert tail[0] == if gap == "" then '(' else gap[0];
    LeadingOf(ident, name, tail);
    assert s1[..|name|] == name && s1[|name|..] == tail;
    EatExactly(tail, '(', gap, rest);
    NameIsNotClose(alnum, lead, name, tail);
  }

  lemma NameIsNotClose(alnum: char -> bool, lead: string, name: string, tail: string)
    requires AlnumLike(alnum) && IsName(name) && AllSpace(lead)
    ensures Eat(lead + (name + tail), ')') == None
  {
    hide Eat, IsName, IsSpace;
    NameChars(alnum, name);
    NotSpaces();
    var s1 := name + tail;
    assert s1 == [name[0]] + s1[1..];
    EatOther(lead, name[0], ')', s1[1..]);
  }

  lemma QuotedComplete(open: string, attr: string, rest: string)
    requires AllSpace(open) && '"' !in attr
    ensures ParseQuoted(open + (['"'] + (attr + (['"'] + rest)))) == Ok((open, attr, rest))
  {
    hide Eat, UntilQuote, IsSpace;
    NotSpaces();
    var s1 := attr + (['"'] + rest);
    EatExactly(open + (['"'] + s1), '"', open, s1);
    QuoteExactly(s1, attr, rest);
  }

  lemma AttributeComplete(name: string, b: Body, rest: string)
    requires b.Attribute? && WellFormedBody(name, b)
    ensures ParseAttribute(EmitBody(b, rest)) == Ok((b, rest))
  {
    hide Eat, ParseQuoted, IsAttributeName, IsSpace;
    NotSpaces();
    var s1 := b.close + ([')'] + rest);
    QuotedComplete(b.open, b.attr, s1);
    EatExactly(s1, ')', b.close, rest);
  }

  lemma CountedComplete(name: string, b: Body, rest: string)
    requires b.Counted? && WellFormedBody(name, b)
    ensures ParseCounted(EmitBody(b, rest)) == Ok((b, rest))
  {
    hide Eat, ParseQuoted, IsCountName, IsSpace, Digits, Number, IsDigit;
    NotSpaces();
    var s4 := b.close + ([')'] + rest);
    var s3 := b.digits + s4;
    var s2 := b.before + s3;
    var s1 := b.comma + ([','] + s2);
    QuotedComplete(b.open, b.attr, s1);
    EatExactly(s1, ',', b.comma, s2);
    assert s3[0] == b.digits[0] && IsDigit(b.digits[0]);
    LeadingOf(IsSpace, b.before, s3);
    assert s2[..|b.before|] == b.before && s2[|b.before|..] == s3;
    assert s4[0] == if b.close == "" then ')' else b.close[0];
    NotDigit(s4[0]);
    DigitsExactly(s3, b.digits, s4);
    EatExactly(s4, ')', b.close, rest);
  }

  lemma NotDigit(c: char)
    ensures IsSpace(c) || c == ')' ==> !IsDigit(c)
  {
  }

  /** What the parser makes of something of the given height at the given depth. */
  function WithinDepth<T>(depth: nat, height: nat, value: T): (r: Result<T, ParseError>)
  {
    if depth + height <= MAX_DEPTH then Ok(value) else Err(DepthExceeded(MAX_DEPTH, MAX_DEPTH))
  }

  lemma {:induction false} TreeComplete(alnum: char -> bool, t: Tree, rest: string, depth: nat)
    requires AlnumLike(alnum) && WellFormed(t) && depth <= MAX_DEPTH
    ensures ParseTree(alnum, Emit(t, rest), depth) == WithinDepth(depth, TreeHeight(t), (t, rest))
    decreases t, 1
  {
    hide AlnumLike, ParseHeader, ParseBody, WellFormedBody, BodyHeight, EmitBody, AllSpace, IsName;
    if depth < MAX_DEPTH {
      NameOfBody(t.name, t.body);
      HeaderComplete(alnum, t.lead, t.name, t.gap, EmitBody(t.body, rest));
      BodyComplete(alnum, t.name, t.body, rest, depth);
    }
  }

  lemma NameOfBody(name: string, b: Body)
    requires WellFormedBody(name, b)
    ensures IsName(name)
  {
    hide IsAttributeName, IsCountName, IsJunctionName, IsNegationName;
  }

  lemma {:induction false} BodyComplete(alnum: char -> bool, name: string, b: Body, rest: string, depth: nat)
    requires AlnumLike(alnum) && WellFormedBody(name, b) && depth < MAX_DEPTH
    ensures ParseBody(alnum, name, EmitBody(b, rest), depth) == WithinDepth(depth, 1 + BodyHeight(b), (b, rest))
    decreases b, 1
  {
    hide AlnumLike, ParseArgs, ParseTree, ParseAttribute, ParseCounted, AllSpace, IsSpace, Eat, Emit, EmitArgs,
         WellFormed, WellFormedArgs, TreeHeight, ArgsHeight;
    match b
    case Attribute(_, _, _) => AttributeComplete(name, b, rest);
    case Counted(_, _, _, _, _, _) => CountedComplete(name, b, rest);
    case Args(args) => ArgsComplete(alnum, args, rest, depth);
    case Inner(t, close) =>
      NotSpaces();
      TreeComplete(alnum, t, close + ([')'] + rest), depth + 1);
      EatExactly(close + ([')'] + rest), ')', close, rest);
  }

  lemma {:induction false} ArgsComplete(alnum: char -> bool, a: ArgList, rest: string, depth: nat)
    requires AlnumLike(alnum) && WellFormedArgs(a) && depth < MAX_DEPTH
    ensures ParseArgs(alnum, EmitArgs(a, rest), depth) == WithinDepth(depth, 1 + ArgsHeight(a), (a, rest))
    decreases a, 1
  {
    hide AlnumLike, ParseTree, AllSpace, IsSpace, Eat, Emit, WellFormed, TreeHeight;
    NotSpaces();
    match a
    case End(close) => EatExactly(close + ([')'] + rest), ')', close, rest);
    case Last(t, close) =>
      var s1 := close + ([')'] + rest);
      NoClose(alnum, t, s1);
      TreeComplete(alnum, t, s1, depth + 1);
      EatExactly(s1, ')', close, rest);
      EatOther(close, ')', ',', rest);
    case More(t, comma, more) =>
      var s2 := EmitArgs(more, rest);
      var s1 := comma + ([','] + s2);
      NoClose(alnum, t, s1);
      TreeComplete(alnum, t, s1, depth + 1);
      EatExactly(s1, ',', comma, s2);
      ArgsComplete(alnum, more, rest, depth);
  }

  lemma NoClose(alnum: char -> bool, t: Tree, rest: string)
    requires AlnumLike(alnum) && WellFormed(t)
    ensures Eat(Emit(t, rest), ')') == None
  {
    hide AlnumLike, ParseHeader, WellFormedBody, EmitBody, AllSpace, IsName, Eat;
    NameOfBody(t.name, t.body);
    HeaderComplete(alnum, t.lead, t.name, t.gap, EmitBody(t.body, rest));
  }

  /** The parser accepts exactly the texts that begin with a tree no higher than the limit. */
  lemma ParseExactly(alnum: char -> bool, s: string, t: Tree, rest: string)
    requires AlnumLike(alnum)
    ensures ParseTree(alnum, s, 0) == Ok((t, rest)) <==>
      WellFormed(t) && TreeHeight(t) <= MAX_DEPTH && s == Emit(t, rest)
  {
    hide ParseTree, WellFormed, TreeHeight, Emit, AlnumLike;
    if WellFormed(t) && s == Emit(t, rest) {
      TreeComplete(alnum, t, rest, 0);
    }
  }
}
