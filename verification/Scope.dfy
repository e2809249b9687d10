/**
 Authorization scopes: five named dimensions plus scheme-registered extension
 dimensions, each holding a value of a three-level lattice.
 */
module Scope {
  import opened Common

  datatype ScopeValue = Wildcard | Set(values: set<string>) | Single(value: string)

  /** The lattice order tested on every delegation link. */
  predicate NarrowsWithin(child: ScopeValue, parent: ScopeValue)
  {
    match (child, parent)
    case (_, Wildcard) => true
    case (Single(a), Single(b)) => a == b
    case (Single(a), Set(sup)) => a in sup
    case (Set(sub), Set(sup)) => sub <= sup
    case (Set(_), Single(_)) => false
    case (Wildcard, _) => false
  }

  datatype ScopeDimensions = ScopeDimensions(
    domain: ScopeValue,
    subdomain: ScopeValue,
    class_: ScopeValue,
    instance: ScopeValue,
    identity: ScopeValue,
    extra: map<string, ScopeValue>)

  const NAMED: seq<string> := ["domain", "subdomain", "class", "instance", "identity"]

  /** Look up a dimension; the named ones hide extensions of the same name. */
  function Get(s: ScopeDimensions, name: string): (v: Option<ScopeValue>)
  {
    if name == "domain" then Some(s.domain)
    else if name == "subdomain" then Some(s.subdomain)
    else if name == "class" then Some(s.class_)
    else if name == "instance" then Some(s.instance)
    else if name == "identity" then Some(s.identity)
    else if name in s.extra then Some(s.extra[name])
    else None
  }

  /** The child's value does not narrow what the parent says, if it says anything. */
  predicate Widens(child: ScopeValue, parent: Option<ScopeValue>)
  {
    parent.Some? && !NarrowsWithin(child, parent.value)
  }

  predicate NamedNarrow(child: ScopeDimensions, parent: ScopeDimensions)
  {
    && NarrowsWithin(child.domain, parent.domain)
    && NarrowsWithin(child.subdomain, parent.subdomain)
    && NarrowsWithin(child.class_, parent.class_)
    && NarrowsWithin(child.instance, parent.instance)
    && NarrowsWithin(child.identity, parent.identity)
  }

  predicate Narrows(child: ScopeDimensions, parent: ScopeDimensions)
  {
    NamedNarrow(child, parent) && forall n :: n in child.extra ==> !Widens(child.extra[n], Get(parent, n))
  }

  /** The first dimension that widens: a named one in the fixed order, else an extension
      of the child in the iteration order `keys`. */
  ghost predicate IsFirstWidened(child: ScopeDimensions, parent: ScopeDimensions, keys: seq<string>, name: string)
    requires forall n :: n in keys <==> n in child.extra
  {
    if !NamedNarrow(child, parent) then
      exists i :: && 0 <= i < |NAMED| && name == NAMED[i]
                  && Widens(Get(child, NAMED[i]).value, Get(parent, NAMED[i]))
                  && forall j :: 0 <= j < i ==> !Widens(Get(child, NAMED[j]).value, Get(parent, NAMED[j]))
    else
      exists i :: && 0 <= i < |keys| && name == keys[i]
                  && Widens(child.extra[keys[i]], Get(parent, keys[i]))
                  && forall j :: 0 <= j < i ==> !Widens(child.extra[keys[j]], Get(parent, keys[j]))
  }

  method FirstWidenedDimension(child: ScopeDimensions, parent: ScopeDimensions, keys: seq<string>)
    returns (r: Option<string>)
    requires forall n :: n in keys <==> n in child.extra
    ensures r.None? <==> Narrows(child, parent)
    ensures r.Some? ==> IsFirstWidened(child, parent, keys, r.value)
  {
    var values := [child.domain, child.subdomain, child.class_, child.instance, child.identity];
    assert forall j :: 0 <= j < |NAMED| ==> Get(child, NAMED[j]) == Some(values[j]);
    var i := 0;
    while i < |NAMED|
      invariant 0 <= i <= |NAMED|
      invariant forall j :: 0 <= j < i ==> !Widens(values[j], Get(parent, NAMED[j]))
    {
      if Widens(values[i], Get(parent, NAMED[i])) {
        return Some(NAMED[i]);
      }
      i := i + 1;
    }
    assert NamedNarrow(child, parent) by {
      assert !Widens(values[0], Get(parent, NAMED[0])) && !Widens(values[1], Get(parent, NAMED[1]));
      assert !Widens(values[2], Get(parent, NAMED[2])) && !Widens(values[3], Get(parent, NAMED[3]));
      assert !Widens(values[4], Get(parent, NAMED[4]));
    }
    i := 0;
    while i < |keys|
      invariant 0 <= i <= |keys|
      invariant forall j :: 0 <= j < i ==> !Widens(child.extra[keys[j]], Get(parent, keys[j]))
    {
      if Widens(child.extra[keys[i]], Get(parent, keys[i])) {
        return Some(keys[i]);
      }
      i := i + 1;
    }
    return None;
  }

  // ---------- what the lattice order means ----------

  predicate Allows(s: ScopeValue, v: string)
  {
    match s
    case Wildcard => true
    case Set(vs) => v in vs
    case Single(w) => v == w
  }

  lemma {:induction false} FreshString(s: set<string>) returns (v: string)
    ensures v !in s && forall w :: w in s ==> |w| < |v|
    decreases s
  {
    if s == {} {
      v := "";
    } else {
      var w :| w in s;
      v := FreshString(s - {w});
      v := v + w + "x";
    }
  }

  /** Narrowing is containment of what is allowed, except that a set never
      counts as narrowing a single value. */
  lemma NarrowsWithinMeaning(child: ScopeValue, parent: ScopeValue)
    ensures NarrowsWithin(child, parent)
            <==> (forall v :: Allows(child, v) ==> Allows(parent, v)) && !(child.Set? && parent.Single?)
  {
    if child.Wildcard? && !parent.Wildcard? {
      var v := FreshString(if parent.Set? then parent.values else {parent.value});
      assert Allows(child, v) && !Allows(parent, v);
    } else if child.Single? {
      assert Allows(child, child.value);
    } else if child.Set? && parent.Set? && !(child.values <= parent.values) {
      var v :| v in child.values && v !in parent.values;
      assert Allows(child, v) && !Allows(parent, v);
    }
  }

  lemma NarrowsWithinOrder(a: ScopeValue, b: ScopeValue, c: ScopeValue)
    ensures NarrowsWithin(a, a)
    ensures NarrowsWithin(a, b) && NarrowsWithin(b, a) ==> a == b
    ensures NarrowsWithin(a, b) && NarrowsWithin(b, c) ==> NarrowsWithin(a, c)
  {
  }

  // ---------- narrowing across two links ----------

  /** Every extension dimension that g constrains is declared by p as well. */
  predicate Carries(p: ScopeDimensions, g: ScopeDimensions)
  {
    forall n :: n in g.extra && n !in NAMED && !g.extra[n].Wildcard? ==> n in p.extra
  }

  /** The scope without the extensions that a named dimension of the same name hides. */
  function Visible(s: ScopeDimensions): (v: ScopeDimensions)
  {
    s.(extra := map n | n in s.extra && n !in NAMED :: s.extra[n])
  }

  lemma VisibleNarrows(p: ScopeDimensions)
    ensures Narrows(Visible(p), p)
  {
  }

  lemma VisibleThrough(c: ScopeDimensions, p: ScopeDimensions, g: ScopeDimensions)
    requires Narrows(c, p) && Narrows(Visible(p), g) && Carries(p, g)
    ensures Narrows(c, g)
  {
    forall n | n in c.extra
      ensures !Widens(c.extra[n], Get(g, n))
    {
      if n !in NAMED {
        if n in g.extra && n in p.extra {
          assert !Widens(Visible(p).extra[n], Get(g, n));
          NarrowsWithinOrder(c.extra[n], p.extra[n], g.extra[n]);
        }
      } else {
        NarrowsWithinOrder(c.extra[n], Get(p, n).value, Get(g, n).value);
      }
    }
  }

  /** Everything below p narrows g exactly when p narrows g, hidden extensions aside, and
      declares the extension dimensions that g constrains. */
  lemma NarrowingIsInheritedIff(p: ScopeDimensions, g: ScopeDimensions)
    ensures (forall c :: Narrows(c, p) ==> Narrows(c, g)) <==> Narrows(Visible(p), g) && Carries(p, g)
    ensures Narrows(p, g) ==> Narrows(Visible(p), g)
  {
    VisibleNarrows(p);
    if Narrows(Visible(p), g) && Carries(p, g) {
      forall c | Narrows(c, p)
        ensures Narrows(c, g)
      {
        VisibleThrough(c, p, g);
      }
    } else if !Carries(p, g) {
      var n :| n in g.extra && n !in NAMED && !g.extra[n].Wildcard? && n !in p.extra;
      var c := p.(extra := map[n := Wildcard]);
      assert Get(p, n) == None && Get(g, n) == Some(g.extra[n]);
      assert Narrows(c, p);
      assert n in c.extra && Widens(c.extra[n], Get(g, n));
    }
  }
}
