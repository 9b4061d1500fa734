/** The responder engine: patterns are normalised to match case-insensitively, compiled and
    bound to handlers; a sentence is answered by the handler of the first pattern that
    matches it, or by a fixed fallback reply.

    The Go implementation keeps its bindings in a map keyed by freshly allocated compiled
    matchers, so two registrations never collide but the order in which `Sentence` tries
    them is unspecified. This model keeps the bindings in a sequence in registration order
    and tries them front to back, so the first registered matching pattern wins.
    `AnswerIsSomeFiringHandler` states the weaker, order-independent guarantee that the Go
    code gives whatever order its map iteration takes. */
module Bot {
  import opened Wrappers
  import opened Regexp
  import opened BotError

  /** The reply to a sentence that no pattern matches. */
  const Fallback: string := "nope"

  /** The inline flag that makes a whole regular expression case-insensitive. */
  const Flag: string := "(?i)"

  /** What a handler receives: the request-scoped context (passed through untouched), the
      sentence, and the capture groups 1..N of the pattern that matched. */
  datatype Message<C> = Message(context: C, text: string, matches: seq<string>)

  type Handler<!C> = Message<C> -> string

  /** One registration: a compiled pattern and the handler it triggers. */
  datatype Binding<!C> = Binding(pattern: Pattern, handler: Handler<C>)

  predicate HasPrefix(s: string, prefix: string) {
    |prefix| <= |s| && s[..|prefix|] == prefix
  }

  /** 1 when the expression starts with the `^` anchor, 0 otherwise: where the
      case-insensitivity flag belongs. */
  function AnchorLen(s: string): (k: nat)
    ensures k <= |s|
    ensures k == 1 <==> HasPrefix(s, "^")
  {
    if |s| > 0 && s[0] == '^' then 1 else 0
  }

  /** The expression carries the case-insensitivity flag as its first instruction: right
      after the start anchor when there is one, at the very start otherwise. */
  predicate HasFlag(s: string) {
    HasPrefix(s[AnchorLen(s)..], Flag)
  }

  /** The expression `Respond` hands on: the pattern with `^` in front and `$` after it. The
      pattern is not grouped, so this anchors the whole sentence only when the pattern has
      no top-level `|`. */
  function Wrap(pattern: string): (r: string)
    ensures |r| == |pattern| + 2
    ensures r[0] == '^' && r[|r| - 1] == '$'
    ensures r[1..|r| - 1] == pattern
  {
    "^" + pattern + "$"
  }

  /** The case-insensitivity normalisation of a non-empty expression: the flag is inserted
      at its place unless it is already there, and the anchor is kept. */
  function Normalize(expr: string): (r: string)
    requires expr != ""
    ensures HasFlag(r)
    ensures AnchorLen(r) == AnchorLen(expr)
    ensures HasFlag(expr) ==> r == expr
    ensures !HasFlag(expr) ==> r == expr[..AnchorLen(expr)] + Flag + expr[AnchorLen(expr)..]
  {
    if expr[0] == '^' then
      AnchoredFlag(expr);
      if !HasPrefix(expr, "^(?i)") then
        var r := "^(?i)" + expr[1..];
        assert r[1..] == Flag + expr[1..];
        assert r == expr[..1] + Flag + expr[1..];
        r
      else expr
    else
      if !HasPrefix(expr, "(?i)") then
        var r := "(?i)" + expr;
        assert r[..4] == Flag && AnchorLen(r) == 0;
        r
      else expr
  }

  /** For an anchored expression, `RespondRegex`'s test for the prefix `^(?i)` is the test
      for the flag after the anchor. */
  lemma AnchoredFlag(expr: string)
    requires expr != "" && expr[0] == '^'
    ensures HasPrefix(expr, "^(?i)") <==> HasFlag(expr)
  {
    if |expr| >= 5 {
      assert expr[..5] == [expr[0]] + expr[1..][..4];
    }
  }

  /** Normalising twice is normalising once. */
  lemma NormalizeIdempotent(expr: string)
    requires expr != ""
    ensures Normalize(Normalize(expr)) == Normalize(expr)
  {
  }

  /** A normalised expression starts with `^(?i)` exactly when the input was anchored, and
      with `(?i)` otherwise. */
  lemma NormalizePrefix(expr: string)
    requires expr != ""
    ensures HasPrefix(Normalize(expr), "^(?i)") <==> expr[0] == '^'
    ensures expr[0] != '^' ==> HasPrefix(Normalize(expr), "(?i)")
  {
    var r := Normalize(expr);
    var k := AnchorLen(expr);
    assert r[k..][..4] == Flag;
    if expr[0] == '^' {
      assert r[..5] == "^" + r[1..][..4];
    }
  }

  /** Normalisation adds exactly four characters, or none when the flag is already in
      place, and it leaves exactly the already-flagged expressions unchanged. */
  lemma NormalizeGrowth(expr: string)
    requires expr != ""
    ensures |Normalize(expr)| == |expr| + (if HasFlag(expr) then 0 else 4)
    ensures Normalize(expr) == expr <==> HasFlag(expr)
  {
  }

  /** The expression `Respond` registers starts with `^(?i)` and ends with `$`; the flag is
      added unless the pattern already began with it. */
  lemma RespondExpression(pattern: string)
    ensures HasPrefix(Normalize(Wrap(pattern)), "^(?i)")
    ensures var r := Normalize(Wrap(pattern)); |r| > 0 && r[|r| - 1] == '$'
    ensures HasPrefix(pattern, Flag) ==> Normalize(Wrap(pattern)) == "^" + pattern + "$"
    ensures !HasPrefix(pattern, Flag) ==> Normalize(Wrap(pattern)) == "^(?i)" + pattern + "$"
  {
    var w := Wrap(pattern);
    assert w[1..] == pattern + "$";
    if HasPrefix(pattern, Flag) {
      assert w[1..][..4] == pattern[..4];
    }
    NormalizePrefix(w);
  }

  /** The binding's pattern matches the sentence. */
  predicate Fires<C>(engine: Engine, b: Binding<C>, text: string) {
    engine.findSubmatch(b.pattern.expr, text) != []
  }

  /** What the handler of a firing binding replies: its message holds the capture groups
      with the whole match (group 0) dropped. */
  function Reply<C>(engine: Engine, b: Binding<C>, ctx: C, text: string): (r: string)
    requires Fires(engine, b, text)
  {
    var groups := engine.findSubmatch(b.pattern.expr, text);
    b.handler(Message(ctx, text, groups[1..]))
  }

  /** The position of the first binding that fires, if any. */
  function FirstMatch<C>(engine: Engine, brain: seq<Binding<C>>, text: string): (r: Option<nat>)
    ensures r.Some? ==> r.value < |brain| && Fires(engine, brain[r.value], text)
    ensures r.Some? ==> forall j :: 0 <= j < r.value ==> !Fires(engine, brain[j], text)
    ensures r.None? ==> forall j :: 0 <= j < |brain| ==> !Fires(engine, brain[j], text)
  {
    if brain == [] then None
    else if Fires(engine, brain[0], text) then Some(0)
    else match FirstMatch(engine, brain[1..], text)
      case None => None
      case Some(i) => Some(i + 1)
  }

  /** The reply the engine gives to a sentence. */
  function Answer<C>(engine: Engine, brain: seq<Binding<C>>, ctx: C, text: string): (r: string) {
    match FirstMatch(engine, brain, text)
    case None => Fallback
    case Some(i) => Reply(engine, brain[i], ctx, text)
  }

  /** When no binding fires, the reply is the fallback. */
  lemma AnswerNoMatch<C>(engine: Engine, brain: seq<Binding<C>>, ctx: C, text: string)
    requires forall j :: 0 <= j < |brain| ==> !Fires(engine, brain[j], text)
    ensures Answer(engine, brain, ctx, text) == Fallback
  {
  }

  /** When binding `i` is the first to fire, the reply is its handler's, given the capture
      groups 1..N and the sentence. */
  lemma AnswerFirstWins<C>(engine: Engine, brain: seq<Binding<C>>, ctx: C, text: string, i: nat)
    requires i < |brain| && Fires(engine, brain[i], text)
    requires forall j :: 0 <= j < i ==> !Fires(engine, brain[j], text)
    ensures var groups := engine.findSubmatch(brain[i].pattern.expr, text);
      Answer(engine, brain, ctx, text) == brain[i].handler(Message(ctx, text, groups[1..]))
  {
  }

  /** The order-independent guarantee: the reply is the fallback and nothing fires, or it
      is the reply of some binding that fires. This holds whatever order the bindings are
      tried in, which is all the Go map iteration promises. */
  lemma AnswerIsSomeFiringHandler<C>(engine: Engine, brain: seq<Binding<C>>, ctx: C, text: string)
    ensures
      || (Answer(engine, brain, ctx, text) == Fallback
          && forall j :: 0 <= j < |brain| ==> !Fires(engine, brain[j], text))
      || (exists j :: 0 <= j < |brain| && Fires(engine, brain[j], text) &&
            Answer(engine, brain, ctx, text) == Reply(engine, brain[j], ctx, text))
  {
    match FirstMatch(engine, brain, text)
    case None =>
    case Some(i) =>
      assert Answer(engine, brain, ctx, text) == Reply(engine, brain[i], ctx, text);
  }

  /** Registering one more binding never changes the reply to a sentence an earlier binding
      already answers; a sentence none of them answers gets the new handler's reply when the
      new pattern matches it, and the fallback otherwise. */
  lemma {:induction false} AnswerAfterRegister<C>(engine: Engine, brain: seq<Binding<C>>, b: Binding<C>, ctx: C, text: string)
    ensures FirstMatch(engine, brain, text).Some? ==>
      Answer(engine, brain + [b], ctx, text) == Answer(engine, brain, ctx, text)
    ensures FirstMatch(engine, brain, text).None? && Fires(engine, b, text) ==>
      Answer(engine, brain + [b], ctx, text) == Reply(engine, b, ctx, text)
    ensures FirstMatch(engine, brain, text).None? && !Fires(engine, b, text) ==>
      Answer(engine, brain + [b], ctx, text) == Fallback
  {
    var grown := brain + [b];
    match FirstMatch(engine, brain, text)
    case Some(i) =>
      assert grown[i] == brain[i];
      forall j | 0 <= j < i ensures !Fires(engine, grown[j], text) {
        assert grown[j] == brain[j];
      }
      AnswerFirstWins(engine, grown, ctx, text, i);
      AnswerFirstWins(engine, brain, ctx, text, i);
    case None =>
      forall j | 0 <= j < |brain| ensures !Fires(engine, grown[j], text) {
        assert grown[j] == brain[j];
      }
      if Fires(engine, b, text) {
        AnswerFirstWins(engine, grown, ctx, text, |brain|);
      } else {
        AnswerNoMatch(engine, grown, ctx, text);
      }
  }

  /** The bot: the regular-expression library it compiles with and its bindings, in the
      order they were registered. */
  class Bot<C> {
    const engine: Engine
    var brain: seq<Binding<C>>

    /** Every stored pattern compiled and is case-insensitive. */
    ghost predicate Valid()
      reads this
    {
      forall j :: 0 <= j < |brain| ==>
        HasFlag(brain[j].pattern.expr) && engine.Compiles(brain[j].pattern.expr)
    }

    /** A bot that knows nothing yet. */
    constructor (engine: Engine)
      ensures Valid()
      ensures this.engine == engine && brain == []
    {
      this.engine := engine;
      brain := [];
    }

    /** Registers a handler for the pattern with `^` put in front of it and `$` after it,
        matched case-insensitively. */
    method Respond(pattern: string, f: Handler<C>) returns (status: Outcome<Error>)
      requires Valid()
      modifies this
      ensures Valid()
      ensures status != Fail(EmptyPattern)
      ensures status.Pass? <==> engine.Compiles(Normalize(Wrap(pattern)))
      ensures status.Pass? ==>
        brain == old(brain) + [Binding(Pattern(Normalize(Wrap(pattern))), f)]
      ensures status.Fail? ==>
        && status == Fail(CompileFailed(Normalize(Wrap(pattern)),
                                        engine.syntaxError(Normalize(Wrap(pattern))).value))
        && brain == old(brain)
    {
      status := RespondRegex(Wrap(pattern), f);
    }

    /** Registers a handler for sentences the expression matches anywhere,
        case-insensitively. An empty expression, or one whose normalised form does not
        compile, is refused and leaves the bot as it was. */
    method RespondRegex(expr: string, f: Handler<C>) returns (status: Outcome<Error>)
      requires Valid()
      modifies this
      ensures Valid()
      ensures expr == "" ==> status == Fail(EmptyPattern) && brain == old(brain)
      ensures expr != "" && !engine.Compiles(Normalize(expr)) ==>
        && status == Fail(CompileFailed(Normalize(expr), engine.syntaxError(Normalize(expr)).value))
        && brain == old(brain)
      ensures expr != "" && engine.Compiles(Normalize(expr)) ==>
        && status == Pass
        && brain == old(brain) + [Binding(Pattern(Normalize(expr)), f)]
    {
      if expr == "" {
        return Fail(EmptyPattern);
      }
      var e := Normalize(expr);
      var err := engine.syntaxError(e);
      if err.Some? {
        return Fail(CompileFailed(e, err.value));
      }
      brain := brain + [Binding(Pattern(e), f)];
      status := Pass;
    }

    /** Answers a sentence with the reply of the first registered pattern that matches it,
        or with the fallback when none does. Never changes the bot. */
    method Sentence(ctx: C, msg: string) returns (reply: string)
      ensures reply == Answer(engine, brain, ctx, msg)
    {
      var i := 0;
      while i < |brain|
        invariant 0 <= i <= |brain|
        invariant forall j :: 0 <= j < i ==> !Fires(engine, brain[j], msg)
      {
        var matches := engine.findSubmatch(brain[i].pattern.expr, msg);
        if |matches| != 0 {
          AnswerFirstWins(engine, brain, ctx, msg, i);
          return brain[i].handler(Message(ctx, msg, matches[1..]));
        }
        i := i + 1;
      }
      return Fallback;
    }
  }
}
