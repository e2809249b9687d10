/**
 What parse accepts, said without trimming: the texts of trees with anything after
 them; and spaces around a text never matter.
 */
module PredicateSpacing {
  import opened Common
  import opened PredicateGrammar
  import opened PredicateDsl

  // ----- the text of a tree and what follows -----

  lemma {:induction false} EmitApart(t: Tree, rest: string)
    ensures Emit(t, rest) == Emit(t, "") + rest
    decreases t, 1
  {
    hide EmitBody;
    BodyApart(t.body, rest);
    Grouped(t.lead, t.name, t.gap, ['('], EmitBody(t.body, ""), rest);
  }

  lemma Grouped(a: string, b: string, c: string, d: string, e: string, rest: string)
    ensures a + (b + (c + (d + (e + rest)))) == (a + (b + (c + (d + e)))) + rest
  {
  }

  lemma {:induction false} BodyApart(b: Body, rest: string)
    ensures EmitBody(b, rest) == EmitBody(b, "") + rest
    decreases b, 1
  {
    hide Emit, EmitArgs;
    match b
    case Attribute(open, attr, close) =>
      CloseApart(close, rest);
      Grouped(open, ['"'], attr, ['"'], close + ([')'] + ""), rest);
    case Counted(open, attr, comma, before, digits, close) =>
      CloseApart(close, rest);
      Grouped(comma, [','], before, digits, close + ([')'] + ""), rest);
      Grouped(open, ['"'], attr, ['"'], comma + ([','] + (before + (digits + (close + ([')'] + ""))))), rest);
    case Args(args) => ArgsApart(args, rest);
    case Inner(t, close) => InnerApart(t, close, rest);
  }

  lemma CloseApart(close: string, rest: string)
    ensures close + ([')'] + rest) == (close + ([')'] + "")) + rest
  {
  }

  lemma {:induction false} InnerApart(t: Tree, close: string, rest: string)
    ensures Emit(t, close + ([')'] + rest)) == Emit(t, close + ([')'] + "")) + rest
    decreases t, 2
  {
    hide Emit;
    EmitApart(t, close + ([')'] + rest));
    EmitApart(t, close + ([')'] + ""));
    CloseApart(close, rest);
    Joined(Emit(t, ""), close + ([')'] + ""), rest);
  }

  lemma Joined(a: string, b: string, c: string)
    ensures a + (b + c) == (a + b) + c
  {
  }

  lemma {:induction false} ArgsApart(a: ArgList, rest: string)
    ensures EmitArgs(a, rest) == EmitArgs(a, "") + rest
    decreases a, 1
  {
    hide Emit;
    match a
    case End(close) => CloseApart(close, rest);
    case Last(t, close) => InnerApart(t, close, rest);
    case More(t, comma, more) =>
      ArgsApart(more, rest);
      var tail := EmitArgs(more, "");
      EmitApart(t, comma + ([','] + (tail + rest)));
      EmitApart(t, comma + ([','] + tail));
      assert comma + ([','] + (tail + rest)) == (comma + ([','] + tail)) + rest;
      Joined(Emit(t, ""), comma + ([','] + tail), rest);
  }

  // ----- a tree ends in a parenthesis -----

  ghost predicate ClosedBy(s: string)
  {
    s != "" && s[|s| - 1] == ')'
  }

  lemma {:induction false} TreeCloses(t: Tree)
    ensures ClosedBy(Emit(t, ""))
    decreases t, 1
  {
    hide EmitBody;
    BodyCloses(t.body);
  }

  lemma {:induction false} BodyCloses(b: Body)
    ensures ClosedBy(EmitBody(b, ""))
    decreases b, 1
  {
    hide Emit, EmitArgs;
    match b
    case Args(args) => ArgsClose(args);
    case Inner(t, close) => EmitApart(t, close + ([')'] + ""));
    case _ =>
  }

  lemma {:induction false} ArgsClose(a: ArgList)
    ensures ClosedBy(EmitArgs(a, ""))
    decreases a, 1
  {
    hide Emit;
    match a
    case End(close) =>
    case Last(t, close) => EmitApart(t, close + ([')'] + ""));
    case More(t, comma, more) =>
      ArgsClose(more);
      EmitApart(t, comma + ([','] + EmitArgs(more, "")));
  }

  // ----- trimming -----

  lemma {:induction false} TrimEndAfter(x: string, y: string)
    requires x == "" || !IsSpace(x[|x| - 1])
    ensures TrimEnd(x + y) == x + TrimEnd(y)
    decreases |y|
  {
    if y == "" {
      assert x + y == x;
    } else {
      assert (x + y)[..|x + y| - 1] == x + y[..|y| - 1];
      if IsSpace(y[|y| - 1]) { TrimEndAfter(x, y[..|y| - 1]); }
    }
  }

  lemma {:induction false} TrimEndSpaces(x: string, u: string)
    requires AllSpace(u)
    ensures TrimEnd(x + u) == TrimEnd(x)
    decreases |u|
  {
    if u == "" {
      assert x + u == x;
    } else {
      assert (x + u)[..|x + u| - 1] == x + u[..|u| - 1];
      TrimEndSpaces(x, u[..|u| - 1]);
    }
  }

  lemma {:induction false} TrimEndCut(s: string)
    ensures TrimEnd(s) <= s && AllSpace(s[|TrimEnd(s)|..])
    decreases |s|
  {
    if s != "" && IsSpace(s[|s| - 1]) {
      TrimEndCut(s[..|s| - 1]);
      assert s == s[..|s| - 1] + [s[|s| - 1]];
    }
  }

  lemma TrimStartSpaces(w: string, x: string)
    requires AllSpace(w)
    ensures TrimStart(w + x) == TrimStart(x)
  {
    var n := Leading(IsSpace, x);
    LeadingOf(IsSpace, w + x[..n], x[n..]);
    assert w + x == (w + x[..n]) + x[n..];
  }

  /** Spaces around a text change nothing. */
  lemma SpacesAround(alnum: char -> bool, w: string, s: string, u: string)
    requires AllSpace(w) && AllSpace(u)
    ensures Parsed(alnum, w + s + u) == Parsed(alnum, s)
  {
    hide ParseTree, Meaning, WellFormed, Emit, TreeHeight, IsSpace, TrimEnd, TrimStart, Leading;
    assert w + s + u == w + (s + u);
    TrimStartSpaces(w, s + u);
    TrimStartBefore(s, u);
  }

  lemma TrimStartBefore(s: string, u: string)
    requires AllSpace(u)
    ensures TrimEnd(TrimStart(s + u)) == TrimEnd(TrimStart(s))
  {
    hide IsSpace, TrimEnd;
    var n := Leading(IsSpace, s);
    if n < |s| {
      LeadingOf(IsSpace, s[..n], s[n..] + u);
      assert s + u == s[..n] + (s[n..] + u);
      assert (s + u)[n..] == s[n..] + u;
      TrimEndSpaces(s[n..], u);
    } else {
      assert forall i :: 0 <= i < |s| ==> IsSpace(s[i]);
      LeadingOf(IsSpace, s + u, "");
      assert (s + u) + "" == s + u;
      assert TrimStart(s) == "" && TrimStart(s + u) == "";
    }
  }

  lemma RoundTripAround(alnum: char -> bool, w: string, p: Predicate, u: string)
    requires AlnumLike(alnum) && Printable(p) && AllSpace(w) && AllSpace(u)
    ensures Parsed(alnum, w + Print(p) + u) ==
      if Height(p) <= MAX_DEPTH then Ok(p) else Err(DepthExceeded(MAX_DEPTH, MAX_DEPTH))
  {
    hide *;
    SpacesAround(alnum, w, Print(p), u);
    RoundTrip(alnum, p);
  }

  // ----- what is accepted -----

  /** s is the text of a tree within the limit that means q, and then anything. */
  ghost predicate Begins(s: string, t: Tree, rest: string, q: Predicate)
  {
    WellFormed(t) && TreeHeight(t) <= MAX_DEPTH && Meaning(t) == q && s == Emit(t, rest)
  }

  lemma NamesBeginWithLetters(t: Tree)
    requires WellFormed(t)
    ensures t.name != "" && !IsSpace(t.name[0])
  {
    hide WellFormedArgs, AllSpace;
    Letters();
  }

  lemma OtherLead(t: Tree, lead: string)
    requires WellFormed(t) && AllSpace(lead)
    ensures
      var u := t.(lead := lead);
      WellFormed(u) && Meaning(u) == Meaning(t) && TreeHeight(u) == TreeHeight(t)
  {
    hide WellFormedBody, MeaningBody, BodyHeight;
  }

  lemma LeadApart(t: Tree, rest: string)
    ensures Emit(t, rest) == t.lead + Emit(t.(lead := ""), rest)
  {
    hide EmitBody;
    var tail := t.name + (t.gap + (['('] + EmitBody(t.body, rest)));
    assert "" + tail == tail;
  }

  lemma LeadJoined(t: Tree, w: string, rest: string)
    ensures w + Emit(t, rest) == Emit(t.(lead := w + t.lead), rest)
  {
    hide EmitBody;
    var tail := t.name + (t.gap + (['('] + EmitBody(t.body, rest)));
    Joined(w, t.lead, tail);
  }

  lemma BeginningParses(alnum: char -> bool, s: string, t: Tree, rest: string, q: Predicate)
    requires AlnumLike(alnum) && Begins(s, t, rest, q)
    ensures Parsed(alnum, s) == Ok(q)
  {
    hide AlnumLike, ParseTree, WellFormed, TreeHeight, Meaning, Emit, TrimEnd, TrimStart, Leading, IsSpace;
    var bare := t.(lead := "");
    OtherLead(t, "");
    LeadApart(t, rest);
    LeadIsSpace(t);
    TrimStartSpaces(t.lead, Emit(bare, rest));
    NoLead(bare, rest);
    EmitApart(bare, rest);
    EmitApart(bare, TrimEnd(rest));
    TreeCloses(bare);
    ParenthesisIsNoSpace();
    TrimEndAfter(Emit(bare, ""), rest);
    ParseExactly(alnum, Emit(bare, TrimEnd(rest)), bare, TrimEnd(rest));
  }

  lemma LeadIsSpace(t: Tree)
    requires WellFormed(t)
    ensures AllSpace(t.lead)
  {
  }

  lemma ParenthesisIsNoSpace()
    ensures !IsSpace(')')
  {
  }

  lemma NoLead(t: Tree, rest: string)
    requires WellFormed(t) && t.lead == ""
    ensures TrimStart(Emit(t, rest)) == Emit(t, rest)
  {
    hide EmitBody, WellFormedBody, IsSpace;
    NamesBeginWithLetters(t);
    assert Emit(t, rest)[0] == t.name[0];
  }

  lemma ParsedBegins(alnum: char -> bool, s: string) returns (t: Tree, rest: string)
    requires AlnumLike(alnum) && Parsed(alnum, s).Ok?
    ensures Begins(s, t, rest, Parsed(alnum, s).value)
  {
    hide AlnumLike, ParseTree, WellFormed, TreeHeight, Meaning, Emit, TrimEnd, Leading, IsSpace;
    var n := Leading(IsSpace, s);
    var (w, m) := (s[..n], TrimEnd(s[n..]));
    TrimEndCut(s[n..]);
    var u := s[n..][|m|..];
    assert s[n..] == m + u;
    assert s == w + s[n..];
    var (t0, rest0) := ParseTree(alnum, m, 0).value;
    t, rest := t0.(lead := w + t0.lead), rest0 + u;
    LeadIsSpace(t0);
    OtherLead(t0, w + t0.lead);
    EmitApart(t0, rest0);
    EmitApart(t0, rest0 + u);
    Joined(Emit(t0, ""), rest0, u);
    LeadJoined(t0, w, rest0 + u);
  }

  /** Parsing succeeds with q if and only if the text is that of a tree no higher than the limit
      that means q, with anything after it. */
  lemma ParsedExactly(alnum: char -> bool, s: string, q: Predicate)
    requires AlnumLike(alnum)
    ensures Parsed(alnum, s) == Ok(q) <==> exists t, rest :: Begins(s, t, rest, q)
  {
    hide AlnumLike, Parsed, Begins;
    if Parsed(alnum, s) == Ok(q) {
      var t, rest := ParsedBegins(alnum, s);
    }
    if t, rest :| Begins(s, t, rest, q) {
      BeginningParses(alnum, s, t, rest, q);
    }
  }
}
