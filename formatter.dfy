/** include/nealog/Formatter.h and include/nealog_impl/FormatterImpl.h: the
    pattern formatter, which wraps a message into a pattern by substituting
    the token `%(message)` before handing the text to the fmt library. */
module Formatters {
  import opened Wrappers
  import opened Text

  /** `MESSAGE_SUBSTITUTOR`. */
  const MessageSubstitutor: string := "%(message)"

  /** The token is ten characters long and holds exactly one '%', at its
      start. */
  lemma SubstitutorShape()
    ensures |MessageSubstitutor| == 10 && MessageSubstitutor[0] == '%'
    ensures CountChar('%', MessageSubstitutor) == 1
  {
    assert MessageSubstitutor == "%" + "(message)";
    assert "%"[..0] == "";
    CountCharAbsent('%', "(message)");
    CountCharAppend('%', "%", "(message)");
  }

  /** Text without '%' holds no token. */
  lemma NoPercentNoSubstitutor(t: string)
    requires '%' !in t
    ensures !Contains(t, MessageSubstitutor)
  {
    forall j: nat | j + 10 <= |t| ensures !OccursAt(t, MessageSubstitutor, j) {
      assert t[j..j + 10][0] == t[j];
    }
  }

  /** An occurrence with no '%' before it is the leftmost one. */
  lemma FindFirst(s: string, p: nat)
    requires OccursAt(s, MessageSubstitutor, p) && '%' !in s[..p]
    ensures Find(s, MessageSubstitutor) == Some(p)
  {
    forall j: nat | j < p ensures !OccursAt(s, MessageSubstitutor, j) {
      assert s[j..j + 10][0] == s[..p][j];
    }
  }

  /** Messages for which the replace loop provably ends: shorter than the
      token (every round makes the text shorter) or free of '%' (every round
      removes one '%'). */
  predicate TerminatingMessage(msg: string)
  {
    |msg| < |MessageSubstitutor| || '%' !in msg
  }

  function WrapMeasure(s: string, msg: string): nat
  {
    if |msg| < |MessageSubstitutor| then |s| else CountChar('%', s)
  }

  /** One round of the loop makes progress on a terminating message. */
  lemma ReplaceDecreases(s: string, p: nat, msg: string)
    requires TerminatingMessage(msg) && OccursAt(s, MessageSubstitutor, p)
    ensures WrapMeasure(Replace(s, p, |MessageSubstitutor|, msg), msg) < WrapMeasure(s, msg)
  {
    if |msg| >= |MessageSubstitutor| {
      var n := |MessageSubstitutor|;
      var r := Replace(s, p, n, msg);
      assert s == s[..p] + MessageSubstitutor + s[p + n..];
      assert r == s[..p] + msg + s[p + n..];
      SubstitutorShape();
      CountCharAbsent('%', msg);
      CountCharAppend('%', s[..p] + MessageSubstitutor, s[p + n..]);
      CountCharAppend('%', s[..p], MessageSubstitutor);
      CountCharAppend('%', s[..p] + msg, s[p + n..]);
      CountCharAppend('%', s[..p], msg);
    }
  }

  /** The text `wrapMessageWithPattern` computes: while the token occurs,
      replace its leftmost occurrence by the message and search again from
      the start. */
  function Wrapped(s: string, msg: string): (r: string)
    requires TerminatingMessage(msg)
    ensures !Contains(r, MessageSubstitutor)
    decreases WrapMeasure(s, msg)
  {
    match Find(s, MessageSubstitutor)
    case None => s
    case Some(p) =>
      ReplaceDecreases(s, p, msg);
      Wrapped(Replace(s, p, |MessageSubstitutor|, msg), msg)
  }

  /** A pattern without the token is returned unchanged. */
  lemma WrappedWithoutSubstitutor(s: string, msg: string)
    requires TerminatingMessage(msg) && !Contains(s, MessageSubstitutor)
    ensures Wrapped(s, msg) == s
  {
  }

  /** Each round rewrites the leftmost occurrence, which is ten characters
      long, and then rescans the whole text: `Wrapped` unfolded once, with
      `Find`'s leftmost contract identifying the occurrence it rewrites. */
  lemma WrappedRewritesLeftmost(s: string, msg: string, p: nat)
    requires TerminatingMessage(msg)
    requires OccursAt(s, MessageSubstitutor, p)
    requires forall j: nat :: j < p ==> !OccursAt(s, MessageSubstitutor, j)
    ensures Wrapped(s, msg) == Wrapped(s[..p] + msg + s[p + 10..], msg)
  {
    var found := Find(s, MessageSubstitutor);
    assert found.Some?;
    assert found.value == p;
    assert |MessageSubstitutor| == 10;
  }

  /** If the message itself contains the token, then every round leaves a
      token in the text, so the loop's condition never becomes false and
      `wrapMessageWithPattern` does not return. */
  lemma SubstitutorInMessageNeverExits(s: string, p: nat, msg: string)
    requires Contains(msg, MessageSubstitutor) && OccursAt(s, MessageSubstitutor, p)
    ensures Contains(Replace(s, p, |MessageSubstitutor|, msg), MessageSubstitutor)
  {
    var j: nat :| j <= |msg| && OccursAt(msg, MessageSubstitutor, j);
    var r := Replace(s, p, |MessageSubstitutor|, msg);
    assert r[p..p + |msg|] == msg;
    assert r[p + j..p + j + |MessageSubstitutor|] == msg[j..j + |MessageSubstitutor|];
    assert OccursAt(r, MessageSubstitutor, p + j);
  }

  /** A pattern made of a '%'-free prefix and one trailing token, around a
      '%'-free message, becomes the prefix followed by the message. */
  lemma WrapSingleToken(prefix: string, msg: string)
    requires '%' !in prefix && '%' !in msg
    ensures Wrapped(prefix + MessageSubstitutor, msg) == prefix + msg
  {
    var s := prefix + MessageSubstitutor;
    var n := |prefix|;
    assert s[..n] == prefix && s[n..n + 10] == MessageSubstitutor && s[n + 10..] == "";
    FindFirst(s, n);
    assert Replace(s, n, 10, msg) == prefix + msg;
    NoPercentNoSubstitutor(prefix + msg);
  }

  /** No token starts inside a '%'-free prefix. */
  lemma NoTokenInPrefix(prefix: string, rest: string, j: nat)
    requires '%' !in prefix && j < |prefix|
    ensures !OccursAt(prefix + rest, MessageSubstitutor, j)
  {
    if j + 10 <= |prefix + rest| {
      assert (prefix + rest)[j..j + 10][0] == prefix[j];
    }
  }

  /** A token after the prefix is a token of the rest, shifted. */
  lemma TokenAfterPrefix(prefix: string, rest: string, j: nat)
    requires |prefix| <= j
    ensures OccursAt(prefix + rest, MessageSubstitutor, j) <==> OccursAt(rest, MessageSubstitutor, j - |prefix|)
  {
    if j + 10 <= |prefix + rest| {
      assert (prefix + rest)[j..j + 10] == rest[j - |prefix|..j - |prefix| + 10];
    }
  }

  /** Text with no token, behind a '%'-free prefix, still has none. */
  lemma NoTokenBehindPrefix(prefix: string, rest: string)
    requires '%' !in prefix && !Contains(rest, MessageSubstitutor)
    ensures !Contains(prefix + rest, MessageSubstitutor)
  {
    forall j: nat ensures !OccursAt(prefix + rest, MessageSubstitutor, j) {
      if j < |prefix| {
        NoTokenInPrefix(prefix, rest, j);
      } else {
        TokenAfterPrefix(prefix, rest, j);
      }
    }
  }

  /** The leftmost token of the rest, behind a '%'-free prefix, is the
      leftmost token of the whole text. */
  lemma LeftmostBehindPrefix(prefix: string, rest: string, p: nat)
    requires '%' !in prefix && OccursAt(rest, MessageSubstitutor, p)
    requires forall j: nat :: j < p ==> !OccursAt(rest, MessageSubstitutor, j)
    ensures OccursAt(prefix + rest, MessageSubstitutor, |prefix| + p)
    ensures forall j: nat :: j < |prefix| + p ==> !OccursAt(prefix + rest, MessageSubstitutor, j)
  {
    TokenAfterPrefix(prefix, rest, |prefix| + p);
    forall j: nat | j < |prefix| + p ensures !OccursAt(prefix + rest, MessageSubstitutor, j) {
      if j < |prefix| {
        NoTokenInPrefix(prefix, rest, j);
      } else {
        TokenAfterPrefix(prefix, rest, j);
      }
    }
  }

  /** Rewriting position `|prefix| + p` of `prefix + rest` rewrites
      position `p` of the rest. */
  lemma RewriteBehindPrefix(prefix: string, rest: string, p: nat, msg: string)
    requires p + 10 <= |rest|
    ensures (prefix + rest)[..|prefix| + p] + msg + (prefix + rest)[|prefix| + p + 10..]
         == prefix + (rest[..p] + msg + rest[p + 10..])
    ensures rest[..p] + msg + rest[p + 10..] == Replace(rest, p, |MessageSubstitutor|, msg)
  {
    assert (prefix + rest)[..|prefix| + p] == prefix + rest[..p];
    assert (prefix + rest)[|prefix| + p + 10..] == rest[p + 10..];
  }

  /** One round on `prefix + rest` is the same round on the rest, behind
      the prefix. */
  lemma RoundBehindPrefix(prefix: string, rest: string, p: nat, msg: string)
    requires '%' !in prefix && TerminatingMessage(msg)
    requires Find(rest, MessageSubstitutor) == Some(p)
    ensures Wrapped(rest, msg) == Wrapped(Replace(rest, p, |MessageSubstitutor|, msg), msg)
    ensures Wrapped(prefix + rest, msg) == Wrapped(prefix + Replace(rest, p, |MessageSubstitutor|, msg), msg)
  {
    LeftmostBehindPrefix(prefix, rest, p);
    WrappedRewritesLeftmost(prefix + rest, msg, |prefix| + p);
    RewriteBehindPrefix(prefix, rest, p, msg);
  }

  /** A '%'-free prefix is never rewritten: the loop works on the rest of
      the text as if the prefix were not there. */
  lemma {:induction false} WrapShift(prefix: string, rest: string, msg: string)
    requires '%' !in prefix && TerminatingMessage(msg)
    ensures Wrapped(prefix + rest, msg) == prefix + Wrapped(rest, msg)
    decreases WrapMeasure(rest, msg)
  {
    match Find(rest, MessageSubstitutor)
    case None =>
      NoTokenBehindPrefix(prefix, rest);
      WrappedWithoutSubstitutor(prefix + rest, msg);
    case Some(p) =>
      RoundBehindPrefix(prefix, rest, p, msg);
      ReplaceDecreases(rest, p, msg);
      WrapShift(prefix, Replace(rest, p, |MessageSubstitutor|, msg), msg);
  }

  /** A leading token becomes the message, and wrapping goes on after it. */
  lemma WrapLeadingToken(rest: string, msg: string)
    requires '%' !in msg
    ensures Wrapped(MessageSubstitutor + rest, msg) == msg + Wrapped(rest, msg)
  {
    var s := MessageSubstitutor + rest;
    assert s[..0] == [] && s[0..10] == MessageSubstitutor;
    FindFirst(s, 0);
    assert Replace(s, 0, 10, msg) == msg + rest;
    WrapShift(msg, rest, msg);
  }

  /** `parts[0] + sep + parts[1] + sep + ... + parts[|parts| - 1]`. */
  function Join(parts: seq<string>, sep: string): string
    requires |parts| > 0
  {
    if |parts| == 1 then parts[0] else parts[0] + sep + Join(parts[1..], sep)
  }

  /** Every token is replaced: a pattern made of '%'-free parts separated by
      tokens, wrapped around a '%'-free message, is the same parts separated
      by the message. */
  lemma {:induction false} WrapReplacesEvery(parts: seq<string>, msg: string)
    requires |parts| > 0 && '%' !in msg
    requires forall i :: 0 <= i < |parts| ==> '%' !in parts[i]
    ensures Wrapped(Join(parts, MessageSubstitutor), msg) == Join(parts, msg)
    decreases |parts|
  {
    if |parts| == 1 {
      NoPercentNoSubstitutor(parts[0]);
    } else {
      var tail := Join(parts[1..], MessageSubstitutor);
      assert Join(parts, MessageSubstitutor) == parts[0] + (MessageSubstitutor + tail);
      WrapShift(parts[0], MessageSubstitutor + tail, msg);
      WrapLeadingToken(tail, msg);
      WrapReplacesEvery(parts[1..], msg);
    }
  }

  /** Two tokens, with text between and after them, are both replaced:
      "[%(message)|%(message)]" around "x" is "[x|x]". */
  lemma WrapTwoTokens(p0: string, p1: string, p2: string, msg: string)
    requires '%' !in p0 && '%' !in p1 && '%' !in p2 && '%' !in msg
    ensures Wrapped(p0 + MessageSubstitutor + p1 + MessageSubstitutor + p2, msg) == p0 + msg + p1 + msg + p2
  {
    JoinThree(p0, p1, p2, MessageSubstitutor);
    JoinThree(p0, p1, p2, msg);
    WrapReplacesEvery([p0, p1, p2], msg);
  }

  lemma JoinThree(p0: string, p1: string, p2: string, sep: string)
    ensures Join([p0, p1, p2], sep) == p0 + sep + p1 + sep + p2
  {
    var parts := [p0, p1, p2];
    assert parts[1..] == [p1, p2] && parts[1..][1..] == [p2];
    assert Join([p2], sep) == p2;
    assert Join([p1, p2], sep) == p1 + sep + p2;
    assert Join(parts, sep) == p0 + sep + (p1 + sep + p2);
  }

  /** Worked example: "super %(message)", that is "super " followed by the
      token, wrapped around "Lorem" is "super Lorem". */
  lemma WrapExample(prefix: string, msg: string)
    requires prefix == "super " && msg == "Lorem"
    ensures Wrapped(prefix + MessageSubstitutor, msg) == "super Lorem"
  {
    PercentFreeParts(prefix, msg, "super Lorem");
    WrapSingleToken(prefix, msg);
  }

  /** The parts of a '%'-free text are '%'-free. */
  lemma PercentFreeParts(a: string, b: string, c: string)
    requires a + b == c && '%' !in c
    ensures '%' !in a && '%' !in b
  {
    assert a == c[..|a|] && b == c[|a|..];
  }

  /** `PatternFormatter`: a pattern fixed at construction. */
  datatype PatternFormatter = PatternFormatter(pattern: string) {

    /** `getPattern`: the pattern given to the constructor. */
    function GetPattern(): (p: string)
      ensures PatternFormatter(p) == this
    {
      pattern
    }

    /** `wrapMessageWithPattern(msg)`: the pattern with every token
        replaced, one leftmost occurrence at a time, rescanning from the
        start after each replacement. */
    method WrapMessageWithPattern(msg: string) returns (r: string)
      requires TerminatingMessage(msg)
      ensures r == Wrapped(pattern, msg)
      ensures !Contains(r, MessageSubstitutor)
      ensures !Contains(pattern, MessageSubstitutor) ==> r == pattern
    {
      var copied := pattern;
      var position := Find(copied, MessageSubstitutor);
      while position.Some?
        invariant position == Find(copied, MessageSubstitutor)
        invariant TerminatingMessage(msg) && Wrapped(copied, msg) == Wrapped(pattern, msg)
        decreases WrapMeasure(copied, msg)
      {
        ReplaceDecreases(copied, position.value, msg);
        copied := Replace(copied, position.value, |MessageSubstitutor|, msg);
        position := Find(copied, MessageSubstitutor);
      }
      r := copied;
    }

    /** `format(msg, args...)`: with an empty pattern the message itself,
        otherwise the wrapped message, is handed to the fmt library, which
        is the parameter `fmt` (the template formatter with the arguments
        already bound). */
    function Format(fmt: string -> string, msg: string): (r: string)
      requires pattern != "" ==> TerminatingMessage(msg)
      ensures pattern == "" ==> r == fmt(msg)
      ensures pattern != "" ==> r == fmt(Wrapped(pattern, msg))
    {
      var messageToFormat := if pattern != "" then Wrapped(pattern, msg) else msg;
      fmt(messageToFormat)
    }
  }

  /** With a non-empty pattern, the template reaching the fmt library never
      contains the token. */
  lemma FormatHidesSubstitutor(f: PatternFormatter, msg: string)
    requires f.pattern != "" && TerminatingMessage(msg)
    ensures f.Format(t => t, msg) == Wrapped(f.pattern, msg)
    ensures !Contains(f.Format(t => t, msg), MessageSubstitutor)
  {
  }

  /** A non-empty pattern that lacks the token discards the message: the
      pattern alone is formatted. */
  lemma PatternWithoutSubstitutorDropsMessage(f: PatternFormatter, fmt: string -> string, msg: string)
    requires f.pattern != "" && TerminatingMessage(msg) && !Contains(f.pattern, MessageSubstitutor)
    ensures f.Format(fmt, msg) == fmt(f.pattern)
  {
  }

  /** Wrapping happens before argument substitution: the placeholders of
      the message reach the fmt library inside the wrapped text, so
      "oh %(message)" with "hello{} mum" hands "oh hello{} mum" to it. */
  lemma WrapsBeforeSubstitution(fmt: string -> string, prefix: string, msg: string)
    requires prefix == "oh " && msg == "hello{} mum"
    ensures PatternFormatter(prefix + MessageSubstitutor).Format(fmt, msg) == fmt("oh hello{} mum")
  {
    PercentFreeParts(prefix, msg, "oh hello{} mum");
    WrapSingleToken(prefix, msg);
  }
}
