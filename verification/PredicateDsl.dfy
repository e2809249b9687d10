/**
 The canonical printer of predicates, its round trip through the parser, and the
 recursive-descent code proved equal to the parser.
 */
module PredicateDsl {
  import opened Common
  import opened PredicateGrammar

  // ----- printer -----

  function Decimal(n: nat): (d: string)
    ensures d != "" && AllDigits(d) && Number(d) == n
  {
    var last := '0' + (n % 10) as char;
    if n < 10 then [last] else
      var d := Decimal(n / 10) + [last];
      assert d[..|d| - 1] == Decimal(n / 10);
      d
  }

  function PrintAttribute(name: string, a: string): (s: string)
  {
    name + "(\"" + a + "\")"
  }

  function PrintCounted(name: string, a: string, n: nat): (s: string)
  {
    name + "(\"" + a + "\", " + Decimal(n) + ")"
  }

  function PrintNested(name: string, inside: string): (s: string)
  {
    name + "(" + inside + ")"
  }

  function Print(p: Predicate): (s: string)
    decreases p, 1
  {
    match p
    case MinCount(a, n) => PrintCounted("min_count", a, n)
    case MinDistinct(a, n) => PrintCounted("min_distinct", a, n)
    case NoneHas(a) => PrintAttribute("none", a)
    case AnyHas(a) => PrintAttribute("any", a)
    case AllHave(a) => PrintAttribute("all", a)
    case And(ps) => PrintNested("and", PrintAll(ps))
    case Or(ps) => PrintNested("or", PrintAll(ps))
    case Not(q) => PrintNested("not", Print(q))
  }

  function PrintAll(ps: seq<Predicate>): (s: string)
    decreases ps, 1
  {
    if ps == [] then ""
    else if |ps| == 1 then Print(ps[0])
    else Print(ps[0]) + ", " + PrintAll(ps[1..])
  }

  function Height(p: Predicate): (h: nat)
    decreases p, 1
  {
    match p
    case And(ps) => 1 + MaxHeight(ps)
    case Or(ps) => 1 + MaxHeight(ps)
    case Not(q) => 1 + Height(q)
    case _ => 1
  }

  function MaxHeight(ps: seq<Predicate>): (h: nat)
    decreases ps, 1
  {
    if ps == [] then 0 else Max(Height(ps[0]), MaxHeight(ps[1..]))
  }

  /** Attributes without a quote and counts a 64-bit word holds. */
  predicate Printable(p: Predicate)
    decreases p, 1
  {
    match p
    case MinCount(a, n) => '"' !in a && n < USIZE_LIMIT
    case MinDistinct(a, n) => '"' !in a && n < USIZE_LIMIT
    case NoneHas(a) => '"' !in a
    case AnyHas(a) => '"' !in a
    case AllHave(a) => '"' !in a
    case And(ps) => AllPrintable(ps)
    case Or(ps) => AllPrintable(ps)
    case Not(q) => Printable(q)
  }

  predicate AllPrintable(ps: seq<Predicate>)
    decreases ps, 1
  {
    ps == [] || (Printable(ps[0]) && AllPrintable(ps[1..]))
  }

  /** The tree of the printed text, with the spaces that come before it. */
  ghost function Canonical(p: Predicate, lead: string): (t: Tree)
    decreases p, 1
  {
    match p
    case MinCount(a, n) => Node(lead, "min_count", "", Counted("", a, "", " ", Decimal(n), ""))
    case MinDistinct(a, n) => Node(lead, "min_distinct", "", Counted("", a, "", " ", Decimal(n), ""))
    case NoneHas(a) => Node(lead, "none", "", Attribute("", a, ""))
    case AnyHas(a) => Node(lead, "any", "", Attribute("", a, ""))
    case AllHave(a) => Node(lead, "all", "", Attribute("", a, ""))
    case And(ps) => Node(lead, "and", "", Args(CanonicalArgs(ps, "")))
    case Or(ps) => Node(lead, "or", "", Args(CanonicalArgs(ps, "")))
    case Not(q) => Node(lead, "not", "", Inner(Canonical(q, ""), ""))
  }

  ghost function CanonicalArgs(ps: seq<Predicate>, lead: string): (a: ArgList)
    decreases ps, 1
  {
    if ps == [] then End(lead)
    else if |ps| == 1 then Last(Canonical(ps[0], lead), "")
    else More(Canonical(ps[0], lead), "", CanonicalArgs(ps[1..], " "))
  }

  lemma {:induction false} CanonicalMeans(p: Predicate, lead: string)
    requires Printable(p) && AllSpace(lead)
    ensures
      var t := Canonical(p, lead);
      WellFormed(t) && Meaning(t) == p && TreeHeight(t) == Height(p)
    decreases p, 1
  {
    hide Decimal, Number;
    match p
    case And(ps) => CanonicalArgsMean(ps, "");
    case Or(ps) => CanonicalArgsMean(ps, "");
    case Not(q) => CanonicalMeans(q, "");
    case _ =>
  }

  lemma {:induction false} CanonicalArgsMean(ps: seq<Predicate>, lead: string)
    requires AllPrintable(ps) && AllSpace(lead)
    ensures
      var a := CanonicalArgs(ps, lead);
      WellFormedArgs(a) && MeaningArgs(a) == ps && ArgsHeight(a) == MaxHeight(ps)
    decreases ps, 1
  {
    hide Canonical, Meaning, WellFormed, TreeHeight, Height, Printable;
    if ps != [] {
      CanonicalMeans(ps[0], lead);
      if |ps| == 1 {
        assert ps == [ps[0]] && MaxHeight(ps[1..]) == 0;
      } else {
        CanonicalArgsMean(ps[1..], " ");
        assert ps == [ps[0]] + ps[1..];
      }
    }
  }

  lemma {:induction false} PrintedText(p: Predicate, lead: string, rest: string)
    ensures lead + (Print(p) + rest) == Emit(Canonical(p, lead), rest)
    decreases p, 1
  {
    hide Decimal, PrintAttribute, PrintCounted, PrintNested, PrintAll, EmitBody, EmitArgs, CanonicalArgs;
    match p
    case MinCount(a, n) => CountedText("min_count", a, n, rest);
    case MinDistinct(a, n) => CountedText("min_distinct", a, n, rest);
    case NoneHas(a) => AttributeText("none", a, rest);
    case AnyHas(a) => AttributeText("any", a, rest);
    case AllHave(a) => AttributeText("all", a, rest);
    case And(ps) =>
      NestedText("and", PrintAll(ps), rest);
      PrintedArgs(ps, "", rest);
      ArgsText(CanonicalArgs(ps, ""), rest);
    case Or(ps) =>
      NestedText("or", PrintAll(ps), rest);
      PrintedArgs(ps, "", rest);
      ArgsText(CanonicalArgs(ps, ""), rest);
    case Not(q) =>
      NestedText("not", Print(q), rest);
      PrintedText(q, "", [')'] + rest);
      InnerText(Canonical(q, ""), rest);
  }

  lemma AttributeText(name: string, a: string, rest: string)
    ensures PrintAttribute(name, a) + rest == name + ("" + (['('] + EmitBody(Attribute("", a, ""), rest)))
  {
    assert "" + ([')'] + rest) == [')'] + rest;
    assert "\")" + rest == ['"'] + ([')'] + rest);
  }

  lemma CountedText(name: string, a: string, n: nat, rest: string)
    ensures PrintCounted(name, a, n) + rest ==
      name + ("" + (['('] + EmitBody(Counted("", a, "", " ", Decimal(n), ""), rest)))
  {
    hide Decimal;
    assert "" + ([')'] + rest) == [')'] + rest;
    assert "\", " + Decimal(n) + ")" + rest == ['"'] + ([','] + (" " + (Decimal(n) + ([')'] + rest))));
  }

  lemma NestedText(name: string, inside: string, rest: string)
    ensures PrintNested(name, inside) + rest == name + ("" + (['('] + ("" + (inside + ([')'] + rest)))))
  {
  }

  lemma ArgsText(a: ArgList, rest: string)
    ensures EmitBody(Args(a), rest) == EmitArgs(a, rest)
  {
  }

  lemma InnerText(t: Tree, rest: string)
    ensures EmitBody(Inner(t, ""), rest) == Emit(t, [')'] + rest)
  {
    hide Emit;
    assert "" + ([')'] + rest) == [')'] + rest;
  }

  lemma {:induction false} PrintedArgs(ps: seq<Predicate>, lead: string, rest: string)
    ensures lead + (PrintAll(ps) + ([')'] + rest)) == EmitArgs(CanonicalArgs(ps, lead), rest)
    decreases ps, 1
  {
    hide Print, Canonical, Emit, EmitArgs;
    if ps == [] {
      EndText(lead, rest);
    } else {
      var t := Canonical(ps[0], lead);
      if |ps| == 1 {
        PrintedText(ps[0], lead, [')'] + rest);
        LastText(t, rest);
      } else {
        PrintedArgs(ps[1..], " ", rest);
        var more := CanonicalArgs(ps[1..], " ");
        PrintedText(ps[0], lead, [','] + EmitArgs(more, rest));
        MoreText(t, more, rest);
        Separated(Print(ps[0]), PrintAll(ps[1..]), rest);
      }
    }
  }

  lemma EndText(lead: string, rest: string)
    ensures EmitArgs(End(lead), rest) == lead + ("" + ([')'] + rest))
  {
    assert "" + ([')'] + rest) == [')'] + rest;
  }

  lemma LastText(t: Tree, rest: string)
    ensures EmitArgs(Last(t, ""), rest) == Emit(t, [')'] + rest)
  {
    hide Emit;
    assert "" + ([')'] + rest) == [')'] + rest;
  }

  lemma MoreText(t: Tree, more: ArgList, rest: string)
    ensures EmitArgs(More(t, "", more), rest) == Emit(t, [','] + EmitArgs(more, rest))
  {
    hide Emit;
    var tail := EmitArgs(more, rest);
    assert "" + ([','] + tail) == [','] + tail;
  }

  lemma Separated(a: string, b: string, rest: string)
    ensures a + ", " + b + ([')'] + rest) == a + ([','] + (" " + (b + ([')'] + rest))))
  {
    assert ", " == [','] + " ";
  }

  // ----- parse -----

  function TrimStart(s: string): (r: string)
  {
    s[Leading(IsSpace, s)..]
  }

  function TrimEnd(s: string): (r: string)
    ensures EndTrimmed(r)
  {
    if s != "" && IsSpace(s[|s| - 1]) then TrimEnd(s[..|s| - 1]) else s
  }

  predicate EndTrimmed(s: string)
  {
    s == "" || !IsSpace(s[|s| - 1])
  }

  function Parsed(alnum: char -> bool, s: string): (r: Result<Predicate, ParseError>)
  {
    match ParseTree(alnum, TrimEnd(TrimStart(s)), 0)
    case Err(e) => Err(e)
    case Ok((t, _)) => Ok(Meaning(t))
  }

  /** Parsing the printed form gives the predicate back up to height 32, and the depth
      error beyond. */
  lemma RoundTrip(alnum: char -> bool, p: Predicate)
    requires AlnumLike(alnum) && Printable(p)
    ensures Parsed(alnum, Print(p)) ==
      if Height(p) <= MAX_DEPTH then Ok(p) else Err(DepthExceeded(MAX_DEPTH, MAX_DEPTH))
  {
    hide AlnumLike, Printable, Print, Canonical, ParseTree, Emit, WellFormed, Meaning, TreeHeight, Height,
         TrimEnd, TrimStart;
    var t := Canonical(p, "");
    CanonicalMeans(p, "");
    PrintedText(p, "", "");
    assert "" + (Print(p) + "") == Print(p);
    TreeComplete(alnum, t, "", 0);
    PrintTrimmed(p);
  }

  lemma PrintTrimmed(p: Predicate)
    ensures TrimEnd(TrimStart(Print(p))) == Print(p)
  {
    hide PrintAll, Decimal, IsSpace;
    var s := Print(p);
    NotSpaces();
    assert s != "" && s[|s| - 1] == ')';
    assert s[0] in {'m', 'n', 'a', 'o'};
    Letters();
    assert TrimStart(s) == s;
  }

  lemma Letters()
    ensures !IsSpace('m') && !IsSpace('n') && !IsSpace('a') && !IsSpace('o')
  {
  }

  /** Whatever parses is printable and within the limit, so its printed form parses to it again. */
  lemma ParsedIsCanonical(alnum: char -> bool, s: string)
    requires AlnumLike(alnum) && Parsed(alnum, s).Ok?
    ensures
      var p := Parsed(alnum, s).value;
      Printable(p) && Height(p) <= MAX_DEPTH && Parsed(alnum, Print(p)) == Ok(p)
  {
    hide AlnumLike, Printable, Print, ParseTree, WellFormed, Meaning, TreeHeight, Height, TrimEnd, TrimStart, Emit;
    var t := ParseTree(alnum, TrimEnd(TrimStart(s)), 0).value.0;
    MeaningPrintable(t);
    RoundTrip(alnum, Meaning(t));
  }

  lemma {:induction false} MeaningPrintable(t: Tree)
    requires WellFormed(t)
    ensures Printable(Meaning(t)) && Height(Meaning(t)) == TreeHeight(t)
    decreases t, 1
  {
    hide WellFormedArgs, MeaningArgs, ArgsHeight, Number;
    match t.body
    case Args(args) => ArgsPrintable(args);
    case Inner(inner, _) => MeaningPrintable(inner);
    case _ =>
  }

  lemma {:induction false} ArgsPrintable(a: ArgList)
    requires WellFormedArgs(a)
    ensures AllPrintable(MeaningArgs(a)) && MaxHeight(MeaningArgs(a)) == ArgsHeight(a)
    decreases a, 1
  {
    hide WellFormed, Meaning, TreeHeight, Height, Printable;
    match a
    case End(_) =>
    case Last(t, _) =>
      MeaningPrintable(t);
      assert [Meaning(t)][1..] == [] && MaxHeight([]) == 0 && AllPrintable([]);
    case More(t, _, rest) =>
      MeaningPrintable(t);
      ArgsPrintable(rest);
      assert MeaningArgs(a)[1..] == MeaningArgs(rest);
  }

  // ----- the code -----

  function Outcome(r: Result<(Tree, string), ParseError>): (o: Result<(Predicate, string), ParseError>)
    requires r.Ok? ==> WellFormed(r.value.0)
  {
    match r case Err(e) => Err(e) case Ok((t, rest)) => Ok((Meaning(t), rest))
  }

  function OutcomeBody(name: string, r: Result<(Body, string), ParseError>): (o: Result<(Predicate, string), ParseError>)
    requires r.Ok? ==> WellFormedBody(name, r.value.0)
  {
    match r case Err(e) => Err(e) case Ok((b, rest)) => Ok((MeaningBody(name, b), rest))
  }

  function OutcomeArgs(r: Result<(ArgList, string), ParseError>): (o: Result<(seq<Predicate>, string), ParseError>)
    requires r.Ok? ==> WellFormedArgs(r.value.0)
  {
    match r case Err(e) => Err(e) case Ok((a, rest)) => Ok((MeaningArgs(a), rest))
  }

  ghost function Prepend(ps: seq<Predicate>, r: Result<(seq<Predicate>, string), ParseError>):
    (o: Result<(seq<Predicate>, string), ParseError>)
  {
    match r case Err(e) => Err(e) case Ok((qs, rest)) => Ok((ps + qs, rest))
  }

  method ParseIdent(alnum: char -> bool, s: string) returns (end: nat)
    ensures end == Leading(c => IsIdent(alnum, c), s)
  {
    end := 0;
    while end < |s| && IsIdent(alnum, s[end])
      invariant end <= |s| && forall i :: 0 <= i < end ==> IsIdent(alnum, s[i])
    {
      end := end + 1;
    }
    assert s == s[..end] + s[end..];
    LeadingOf(c => IsIdent(alnum, c), s[..end], s[end..]);
  }

  method Parse(alnum: char -> bool, expr: string) returns (r: Result<Predicate, ParseError>)
    ensures r == Parsed(alnum, expr)
  {
    hide ParseTree, WellFormed, Meaning, Emit, TreeHeight, TrimEnd, TrimStart;
    var p := ParseExpr(alnum, TrimEnd(TrimStart(expr)), 0);
    match p {
      case Err(e) => return Err(e);
      case Ok((q, _)) => return Ok(q);
    }
  }

  method ParseExpr(alnum: char -> bool, s: string, depth: nat) returns (r: Result<(Predicate, string), ParseError>)
    requires EndTrimmed(s)
    ensures r == Outcome(ParseTree(alnum, s, depth))
    decreases |s|, 0
  {
    hide ParseBody, Eat, Leading, WellFormedBody, MeaningBody, EmitBody, BodyHeight, AllSpace, IsSpace, TrimEnd, IsIdent;
    if depth >= MAX_DEPTH {
      return Err(DepthExceeded(depth, MAX_DEPTH));
    }
    TrimmedEnd(s);
    var s1 := TrimEnd(TrimStart(s));
    var k := ParseIdent(alnum, s1);
    if k == 0 {
      return Err(UnexpectedEof);
    }
    var e := Eat(s1[k..], '(');
    if e.None? {
      return Err(UnexpectedChar);
    }
    HeaderSound(alnum, s);
    HeaderTrimmed(alnum, s);
    r := ParseCall(alnum, s1[..k], e.value.rest, depth);
  }

  lemma TrimmedEnd(s: string)
    requires EndTrimmed(s)
    ensures TrimEnd(TrimStart(s)) == TrimStart(s)
  {
    hide IsSpace;
  }

  lemma HeaderTrimmed(alnum: char -> bool, s: string)
    requires EndTrimmed(s) && ParseHeader(alnum, s).Ok?
    ensures EndTrimmed(ParseHeader(alnum, s).value.rest)
  {
    hide ParseHeader, AllSpace, IsSpace;
    HeaderSound(alnum, s);
  }

  lemma RestTrimmed(s: string, t: Tree, rest: string)
    requires EndTrimmed(s) && s == Emit(t, rest)
    ensures EndTrimmed(rest)
  {
    hide IsSpace, Emit;
    EmitEnds(t, rest);
  }

  lemma {:induction false} EmitEnds(t: Tree, rest: string)
    ensures |Emit(t, rest)| >= |rest| && Emit(t, rest)[|Emit(t, rest)| - |rest|..] == rest
    decreases t, 1
  {
    hide EmitBody;
    BodyEnds(t.body, rest);
    var b := EmitBody(t.body, rest);
    var front := t.lead + t.name + t.gap + ['('];
    assert Emit(t, rest) == front + b;
    assert (front + b)[|front| + |b| - |rest|..] == b[|b| - |rest|..];
  }

  lemma {:induction false} BodyEnds(b: Body, rest: string)
    ensures |EmitBody(b, rest)| >= |rest| && EmitBody(b, rest)[|EmitBody(b, rest)| - |rest|..] == rest
    decreases b, 1
  {
    hide Emit, EmitArgs;
    match b
    case Attribute(_, _, _) =>
    case Counted(_, _, _, _, _, _) =>
    case Args(args) => ArgsEnd(args, rest);
    case Inner(t, close) => EmitEnds(t, close + ([')'] + rest));
  }

  lemma {:induction false} ArgsEnd(a: ArgList, rest: string)
    ensures |EmitArgs(a, rest)| >= |rest| && EmitArgs(a, rest)[|EmitArgs(a, rest)| - |rest|..] == rest
    decreases a, 1
  {
    hide Emit;
    match a
    case End(_) =>
    case Last(t, close) => EmitEnds(t, close + ([')'] + rest));
    case More(t, comma, more) =>
      ArgsEnd(more, rest);
      EmitEnds(t, comma + ([','] + EmitArgs(more, rest)));
  }

  method ParseString(s: string) returns (r: Result<(string, string), ParseError>)
    ensures r == match ParseQuoted(s) case Err(e) => Err(e) case Ok((_, attr, rest)) => Ok((attr, rest))
  {
    hide Eat, UntilQuote;
    var open := Eat(s, '"');
    if open.None? {
      return Err(UnexpectedChar);
    }
    var end := UntilQuote(open.value.rest);
    if end.None? {
      return Err(UnexpectedEof);
    }
    return Ok((end.value.text, end.value.rest));
  }

  lemma DigitsOnly(s: string)
    ensures Digits(s).Some? ==> AllDigits(Digits(s).value.text)
  {
  }

  /** The branches on the name, after its opening parenthesis. */
  method ParseCall(alnum: char -> bool, name: string, s: string, depth: nat)
    returns (r: Result<(Predicate, string), ParseError>)
    requires EndTrimmed(s) && depth < MAX_DEPTH
    ensures r == OutcomeBody(name, ParseBody(alnum, name, s, depth))
    decreases |s|, 2
  {
    hide Eat, ParseTree, ParseArgs, WellFormed, WellFormedArgs, EmitBody, Emit, EmitArgs, TreeHeight, ArgsHeight,
         AllSpace, IsSpace, Meaning, MeaningArgs, AllDigits, Number, ParseQuoted, Digits;
    if name == "min_count" || name == "min_distinct" {
      CountedSound(name, s);
      var attr := ParseString(s);
      if attr.Err? {
        return Err(attr.error);
      }
      var comma := Eat(attr.value.1, ',');
      if comma.None? {
        return Err(UnexpectedChar);
      }
      var digits := Digits(TrimStart(comma.value.rest));
      if digits.None? {
        return Err(NumberParse);
      }
      var close := Eat(digits.value.rest, ')');
      if close.None? {
        return Err(UnexpectedChar);
      }
      DigitsOnly(TrimStart(comma.value.rest));
      var count := Number(digits.value.text);
      if count >= USIZE_LIMIT {
        return Err(NumberParse);
      }
      var p := if name == "min_count" then MinCount(attr.value.0, count) else MinDistinct(attr.value.0, count);
      return Ok((p, close.value.rest));
    } else if name == "none" || name == "any" || name == "all" {
      AttributeSound(name, s);
      var attr := ParseString(s);
      if attr.Err? {
        return Err(attr.error);
      }
      var close := Eat(attr.value.1, ')');
      if close.None? {
        return Err(UnexpectedChar);
      }
      var a := attr.value.0;
      var p := if name == "none" then NoneHas(a) else if name == "any" then AnyHas(a) else AllHave(a);
      return Ok((p, close.value.rest));
    } else if name == "and" || name == "or" {
      var args := ParseJunction(alnum, s, depth);
      match args {
        case Err(e) => return Err(e);
        case Ok((preds, rest)) => return Ok((if name == "and" then And(preds) else Or(preds), rest));
      }
    } else if name == "not" {
      var inner := ParseExpr(alnum, s, depth + 1);
      match inner {
        case Err(e) => return Err(e);
        case Ok((p, s1)) =>
          var close := Eat(s1, ')');
          if close.None? {
            return Err(UnexpectedChar);
          }
          return Ok((Not(p), close.value.rest));
      }
    } else {
      return Err(UnknownFunction);
    }
  }

  method ParseJunction(alnum: char -> bool, body: string, depth: nat)
    returns (r: Result<(seq<Predicate>, string), ParseError>)
    requires EndTrimmed(body) && depth < MAX_DEPTH
    ensures r == OutcomeArgs(ParseArgs(alnum, body, depth))
    decreases |body|, 1
  {
    hide *;
    var preds: seq<Predicate> := [];
    var s := body;
    PrependNothing(OutcomeArgs(ParseArgs(alnum, body, depth)));
    while true
      invariant EndTrimmed(s) && |s| <= |body|
      invariant OutcomeArgs(ParseArgs(alnum, body, depth)) == Prepend(preds, OutcomeArgs(ParseArgs(alnum, s, depth)))
      decreases |s|
    {
      ArgsStep(alnum, s, depth, preds);
      var close := Eat(s, ')');
      if close.Some? {
        return Ok((preds, close.value.rest));
      }
      var arg := ParseExpr(alnum, s, depth + 1);
      if arg.Err? {
        return Err(arg.error);
      }
      preds := preds + [arg.value.0];
      var rest := arg.value.1;
      var comma := Eat(rest, ',');
      if comma.Some? {
        s := comma.value.rest;
      } else {
        close := Eat(rest, ')');
        if close.Some? {
          return Ok((preds, close.value.rest));
        }
        return Err(UnexpectedEof);
      }
    }
  }

  lemma PrependNothing(r: Result<(seq<Predicate>, string), ParseError>)
    ensures Prepend([], r) == r
  {
    if r.Ok? { assert [] + r.value.0 == r.value.0; }
  }

  /** One round of the argument loop. */
  lemma ArgsStep(alnum: char -> bool, s: string, depth: nat, preds: seq<Predicate>)
    requires depth < MAX_DEPTH && EndTrimmed(s)
    ensures
      var all := Prepend(preds, OutcomeArgs(ParseArgs(alnum, s, depth)));
      var arg := Outcome(ParseTree(alnum, s, depth + 1));
      if Eat(s, ')').Some? then all == Ok((preds, Eat(s, ')').value.rest))
      else if arg.Err? then all == Err(arg.error)
      else
        var preds' := preds + [arg.value.0];
        var comma, close := Eat(arg.value.1, ','), Eat(arg.value.1, ')');
        if comma.Some? then
          && EndTrimmed(comma.value.rest) && |comma.value.rest| < |s|
          && all == Prepend(preds', OutcomeArgs(ParseArgs(alnum, comma.value.rest, depth)))
        else if close.Some? then all == Ok((preds', close.value.rest))
        else all == Err(UnexpectedEof)
  {
    hide Eat, ParseTree, WellFormed, Meaning, Emit, TreeHeight, AllSpace, IsSpace;
    NotSpaces();
    if Eat(s, ')').Some? {
      assert preds + [] == preds;
    } else if ParseTree(alnum, s, depth + 1).Ok? {
      var (t, s1) := ParseTree(alnum, s, depth + 1).value;
      EmitGrows(t, s1);
      RestTrimmed(s, t, s1);
      EatSound(s1, ',');
      if Eat(s1, ',').Some? {
        var m := Eat(s1, ',').value;
        var more := ParseArgs(alnum, m.rest, depth);
        if more.Ok? {
          var qs := MeaningArgs(more.value.0);
          assert preds + ([Meaning(t)] + qs) == preds + [Meaning(t)] + qs;
        }
      }
    }
  }
}
