/** Resolving colour tokens that refer to each other, with a bound on the depth. */
module ContrastTokens {
  import opened Options

  type Name = string
  type Colour = string

  /**
   * A token's value as the resolver's patterns read it. Other stands for what no pattern accepts:
   * an empty value, a full oklch colour, or a colour that does not parse.
   */
  datatype Value =
    | Var(name: Name, fallback: Option<Value>)
    | OklchFrom(base: Value)
    | Solid(colour: Colour)
    | Other

  type Tokens = map<Name, Value>

  const MAX_DEPTH := 10

  // ----- the resolver -----

  function ResolveToken(tokens: Tokens, name: Name, depth: nat): Option<Colour>
    decreases 2 * MAX_DEPTH + 2 - depth
  {
    if depth > MAX_DEPTH then None
    else if name !in tokens then None
    else ResolveValue(tokens, tokens[name], depth + 1)
  }

  function ResolveValue(tokens: Tokens, v: Value, depth: nat): Option<Colour>
    decreases 2 * MAX_DEPTH + 2 - depth
  {
    if depth > MAX_DEPTH then None
    else
      match v
      case Var(name, fallback) =>
        var resolved := ResolveToken(tokens, name, depth + 1);
        if resolved.Some? then resolved
        else if fallback.Some? then ResolveValue(tokens, fallback.value, depth + 1)
        else None
      case OklchFrom(base) => ResolveValue(tokens, base, depth + 1)
      case Solid(colour) => Some(colour)
      case Other => None
  }

  // ----- following references, without a bound -----

  /** The three ways in which one value leads to another. */
  datatype Hop = ToToken | ToFallback | ToBase

  ghost predicate Leads(tokens: Tokens, v: Value, hop: Hop, w: Value) {
    match hop
    case ToToken => v.Var? && v.name in tokens && w == tokens[v.name]
    case ToFallback => v.Var? && v.fallback == Some(w)
    case ToBase => v.OklchFrom? && w == v.base
  }

  /** A walk from v along the hops ends in the colour. */
  ghost predicate Walk(tokens: Tokens, v: Value, hops: seq<Hop>, colour: Colour)
    decreases hops
  {
    if hops == [] then v == Solid(colour)
    else exists w :: Leads(tokens, v, hops[0], w) && Walk(tokens, w, hops[1..], colour)
  }

  /** Following a reference to a token takes two levels of depth, the other hops one. */
  function HopCost(hop: Hop): nat {
    if hop == ToToken then 2 else 1
  }

  function Cost(hops: seq<Hop>): nat {
    if hops == [] then 0 else HopCost(hops[0]) + Cost(hops[1..])
  }

  /** Where two walks part, the preferred one goes to the token and the other to the fallback. */
  predicate NotAfter(a: seq<Hop>, b: seq<Hop>) {
    || a == b
    || (a != [] && b != [] && a[0] == ToToken && b[0] == ToFallback)
    || (a != [] && b != [] && a[0] == b[0] && NotAfter(a[1..], b[1..]))
  }

  ghost predicate Affordable(tokens: Tokens, v: Value, depth: nat, hops: seq<Hop>, c: Colour) {
    Walk(tokens, v, hops, c) && depth + Cost(hops) <= MAX_DEPTH
  }

  /** A colour that is returned ends a walk that the depth allows, and none that it allows is preferred. */
  lemma {:induction false} ResolvedIsReachable(tokens: Tokens, v: Value, depth: nat) returns (hops: seq<Hop>)
    requires ResolveValue(tokens, v, depth).Some?
    ensures Affordable(tokens, v, depth, hops, ResolveValue(tokens, v, depth).value)
    ensures forall other, c :: Affordable(tokens, v, depth, other, c) ==> NotAfter(hops, other)
    decreases 2 * MAX_DEPTH + 2 - depth
  {
    var c := ResolveValue(tokens, v, depth).value;
    match v
    case Solid(_) =>
      hops := [];
    case OklchFrom(base) =>
      var rest := ResolvedIsReachable(tokens, base, depth + 1);
      hops := Prepend(tokens, v, ToBase, base, rest, c);
      PreferFirst(tokens, v, depth, ToBase, base, depth + 1, rest);
    case Var(name, fallback) =>
      if ResolveToken(tokens, name, depth + 1).Some? {
        var rest := ResolvedIsReachable(tokens, tokens[name], depth + 2);
        hops := Prepend(tokens, v, ToToken, tokens[name], rest, c);
        PreferFirst(tokens, v, depth, ToToken, tokens[name], depth + 2, rest);
      } else {
        var rest := ResolvedIsReachable(tokens, fallback.value, depth + 1);
        hops := Prepend(tokens, v, ToFallback, fallback.value, rest, c);
        PreferFirst(tokens, v, depth, ToFallback, fallback.value, depth + 1, rest);
      }
  }

  /** Preference is decided by the first hop or, if that is the same, after it. */
  lemma PreferFirst(tokens: Tokens, v: Value, depth: nat, hop: Hop, w: Value, next: nat, rest: seq<Hop>)
    requires Leads(tokens, v, hop, w) && next == depth + HopCost(hop)
    requires hop == ToFallback ==> ResolveToken(tokens, v.name, depth + 1).None?
    requires forall other, c :: Affordable(tokens, w, next, other, c) ==> NotAfter(rest, other)
    ensures forall other, c :: Affordable(tokens, v, depth, other, c) ==> NotAfter([hop] + rest, other)
  {
    forall other, c | Affordable(tokens, v, depth, other, c)
      ensures NotAfter([hop] + rest, other)
    {
      var x :| Leads(tokens, v, other[0], x) && Walk(tokens, x, other[1..], c);
      assert ([hop] + rest)[1..] == rest;
      if other[0] == hop {
        assert Affordable(tokens, w, next, other[1..], c);
      } else if hop == ToFallback {
        ReachableIsResolved(tokens, x, depth + 2, other[1..], c);
        assert false;
      }
    }
  }

  lemma Prepend(tokens: Tokens, v: Value, hop: Hop, w: Value, rest: seq<Hop>, c: Colour) returns (hops: seq<Hop>)
    requires Leads(tokens, v, hop, w) && Walk(tokens, w, rest, c)
    ensures hops == [hop] + rest && Walk(tokens, v, hops, c)
    ensures Cost(hops) == HopCost(hop) + Cost(rest)
  {
    hops := [hop] + rest;
    assert hops[1..] == rest;
  }

  /** If some colour is within the depth that is left, the resolver returns one. */
  lemma {:induction false} ReachableIsResolved(tokens: Tokens, v: Value, depth: nat, hops: seq<Hop>, c: Colour)
    requires Walk(tokens, v, hops, c) && depth + Cost(hops) <= MAX_DEPTH
    ensures ResolveValue(tokens, v, depth).Some?
    decreases hops
  {
    if hops != [] {
      var w :| Leads(tokens, v, hops[0], w) && Walk(tokens, w, hops[1..], c);
      ReachableIsResolved(tokens, w, depth + HopCost(hops[0]), hops[1..], c);
    }
  }

  /** The resolver finds a colour exactly if following references reaches one within its depth. */
  lemma ResolvesExactly(tokens: Tokens, v: Value, depth: nat)
    ensures ResolveValue(tokens, v, depth).Some? <==>
            exists hops, c :: Affordable(tokens, v, depth, hops, c)
  {
    if ResolveValue(tokens, v, depth).Some? {
      var hops := ResolvedIsReachable(tokens, v, depth);
      assert Affordable(tokens, v, depth, hops, ResolveValue(tokens, v, depth).value);
    }
    if hops, c :| Affordable(tokens, v, depth, hops, c) {
      ReachableIsResolved(tokens, v, depth, hops, c);
    }
  }

  // ----- from a token -----

  lemma {:induction false} NotAfterEither(a: seq<Hop>, b: seq<Hop>)
    requires NotAfter(a, b) && NotAfter(b, a)
    ensures a == b
  {
    if a != [] && b != [] && a[0] == b[0] {
      assert a == [a[0]] + a[1..] && b == [b[0]] + b[1..];
      NotAfterEither(a[1..], b[1..]);
    }
  }

  /** The hops decide where a walk ends. */
  lemma {:induction false} WalkEnds(tokens: Tokens, v: Value, hops: seq<Hop>, c: Colour, d: Colour)
    requires Walk(tokens, v, hops, c) && Walk(tokens, v, hops, d)
    ensures c == d
    decreases hops
  {
    if hops != [] {
      var w :| Leads(tokens, v, hops[0], w) && Walk(tokens, w, hops[1..], c);
      WalkEnds(tokens, w, hops[1..], c, d);
    }
  }

  /** The walk ends in the colour at a cost of nine at most, and no walk to a colour at that cost is preferred. */
  ghost predicate Best(tokens: Tokens, v: Value, hops: seq<Hop>, colour: Colour) {
    && Walk(tokens, v, hops, colour) && Cost(hops) <= 9
    && forall other, c {:trigger Walk(tokens, v, other, c)} ::
         Walk(tokens, v, other, c) && Cost(other) <= 9 ==> NotAfter(hops, other)
  }

  /** A token has the colour exactly if the best walk from its value ends in it. */
  lemma TokenExactly(tokens: Tokens, name: Name, colour: Colour)
    ensures ResolveToken(tokens, name, 0) == Some(colour) <==>
            name in tokens && exists hops :: Best(tokens, tokens[name], hops, colour)
  {
    if name in tokens {
      var v := tokens[name];
      var r := ResolveValue(tokens, v, 1);
      if r.Some? {
        var best := ResolvedIsReachable(tokens, v, 1);
        forall other, c | Walk(tokens, v, other, c) && Cost(other) <= 9
          ensures NotAfter(best, other)
        {
          assert Affordable(tokens, v, 1, other, c);
        }
        assert Best(tokens, v, best, r.value);
        if hops :| Best(tokens, v, hops, colour) {
          NotAfterEither(best, hops);
          WalkEnds(tokens, v, best, r.value, colour);
        }
      } else if hops :| Best(tokens, v, hops, colour) {
        ReachableIsResolved(tokens, v, 1, hops, colour);
      }
    }
  }

  // ----- chains without a fallback -----

  /** The only references followed from v are var references and relative colours, ending in the colour. */
  ghost predicate Chain(tokens: Tokens, v: Value, vars: nat, bases: nat, colour: Colour)
    decreases vars + bases
  {
    match v
    case Solid(c) => c == colour && vars == 0 && bases == 0
    case Var(name, fallback) =>
      fallback == None && name in tokens && vars > 0 && Chain(tokens, tokens[name], vars - 1, bases, colour)
    case OklchFrom(base) => bases > 0 && Chain(tokens, base, vars, bases - 1, colour)
    case Other => false
  }

  lemma {:induction false} ChainResolves(tokens: Tokens, v: Value, vars: nat, bases: nat, colour: Colour, depth: nat)
    requires Chain(tokens, v, vars, bases, colour)
    ensures ResolveValue(tokens, v, depth) == if depth + 2 * vars + bases <= MAX_DEPTH then Some(colour) else None
    decreases vars + bases
  {
    match v
    case Solid(_) =>
    case Var(name, _) => ChainResolves(tokens, tokens[name], vars - 1, bases, colour, depth + 2);
    case OklchFrom(base) => ChainResolves(tokens, base, vars, bases - 1, colour, depth + 1);
  }

  /** From a token at depth 0, a chain resolves exactly if twice its var hops plus its other hops are at most 9. */
  lemma ChainFromToken(tokens: Tokens, name: Name, vars: nat, bases: nat, colour: Colour)
    requires name in tokens && Chain(tokens, tokens[name], vars, bases, colour)
    ensures ResolveToken(tokens, name, 0) == if 2 * vars + bases <= 9 then Some(colour) else None
  {
    ChainResolves(tokens, tokens[name], vars, bases, colour, 1);
  }

  /** The bound is what cuts cycles off, and it loses nothing else: without a reachable colour there is no result. */
  lemma NoColourNoResult(tokens: Tokens, v: Value, depth: nat)
    requires forall hops, c :: !Walk(tokens, v, hops, c)
    ensures ResolveValue(tokens, v, depth) == None
  {
    ResolvesExactly(tokens, v, depth);
  }
}
