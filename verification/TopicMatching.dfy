/** Wildcard matching of bus topics (decnet/bus/base.py). */
module TopicMatching {
  import opened Text

  /** The scan of `matches` after both strings were split on dots. */
  predicate MatchTokens(pattern: seq<string>, topic: seq<string>) {
    if pattern == [] then topic == []
    else if pattern[0] == ">" then topic != []
    else if topic == [] then false
    else TokenOk(pattern[0], topic[0]) && MatchTokens(pattern[1..], topic[1..])
  }

  /** A single non-`>` pattern token against a topic token. */
  predicate TokenOk(p: string, t: string) {
    if p == "*" then t != "" else p == t
  }

  predicate Matches(pattern: string, topic: string) {
    MatchTokens(Split(pattern), Split(topic))
  }

  /** The loop of `matches` itself: index by index, with its early returns. */
  method ScanMatches(pattern: string, topic: string) returns (r: bool)
    ensures r <==> Matches(pattern, topic)
  {
    var ps, ts := Split(pattern), Split(topic);
    for i := 0 to |ps|
      invariant i <= |ts|
      invariant Matches(pattern, topic) <==> MatchTokens(ps[i..], ts[i..])
    {
      var p := ps[i];
      if p == ">" { return i < |ts|; }
      if i >= |ts| { return false; }
      if p == "*" {
        if ts[i] == "" { return false; }
        continue;
      }
      if p != ts[i] { return false; }
    }
    return |ps| == |ts|;
  }

  /** What the patterns denote as a language of token lists: a literal stands for itself,
      `*` for one non-empty token and `>` for any one or more tokens, wherever they stand. */
  ghost predicate Denotes(pattern: seq<string>, topic: seq<string>) {
    if pattern == [] then topic == []
    else if pattern[0] == ">" then
      exists n :: 1 <= n <= |topic| && Denotes(pattern[1..], topic[n..])
    else
      && topic != []
      && (if pattern[0] == "*" then topic[0] != "" else topic[0] == pattern[0])
      && Denotes(pattern[1..], topic[1..])
  }

  /** `>` is used only as the last token. */
  predicate TailOnly(pattern: seq<string>) {
    forall i | 0 <= i < |pattern| - 1 :: pattern[i] != ">"
  }

  lemma {:induction false} TailOnlyAgrees(pattern: seq<string>, topic: seq<string>)
    requires TailOnly(pattern)
    ensures MatchTokens(pattern, topic) <==> Denotes(pattern, topic)
    decreases |pattern|
  {
    if pattern == [] {
    } else if pattern[0] == ">" {
      assert |pattern| == 1 && pattern[1..] == [];
      if topic != [] {
        assert topic[|topic|..] == [];
        assert Denotes(pattern[1..], topic[|topic|..]);
      }
    } else if topic != [] {
      forall i | 0 <= i < |pattern[1..]| - 1 ensures pattern[1..][i] != ">" {
        assert pattern[1..][i] == pattern[i + 1];
      }
      TailOnlyAgrees(pattern[1..], topic[1..]);
    }
  }

  /** Every pattern token stands for at least one topic token. */
  lemma {:induction false} DenotesLength(pattern: seq<string>, topic: seq<string>)
    requires Denotes(pattern, topic)
    ensures |pattern| <= |topic|
    decreases |pattern|
  {
    if pattern == [] {
    } else if pattern[0] == ">" {
      var n :| 1 <= n <= |topic| && Denotes(pattern[1..], topic[n..]);
      DenotesLength(pattern[1..], topic[n..]);
    } else {
      DenotesLength(pattern[1..], topic[1..]);
    }
  }

  /** A topic that the scan accepts although it is too short to be denoted by `pattern`. */
  lemma {:induction false} InnerTailOverAccepts(pattern: seq<string>) returns (topic: seq<string>)
    requires !TailOnly(pattern)
    requires forall p | p in pattern :: DotFree(p)
    ensures MatchTokens(pattern, topic) && !Denotes(pattern, topic)
    ensures 0 < |topic| < |pattern|
    ensures forall t | t in topic :: DotFree(t)
  {
    if pattern[0] == ">" {
      topic := ["x"];
    } else {
      var i :| 0 <= i < |pattern| - 1 && pattern[i] == ">";
      assert pattern[1..][i - 1] == ">";
      var rest := InnerTailOverAccepts(pattern[1..]);
      assert DotFree(pattern[0]);
      topic := [if pattern[0] == "*" then "x" else pattern[0]] + rest;
      assert topic[1..] == rest;
    }
    if Denotes(pattern, topic) { DenotesLength(pattern, topic); }
  }

  /** The documented meaning holds on every topic exactly when `>` comes last. */
  lemma MatchesAsDocumentedIff(pattern: string)
    ensures (forall topic: string :: Matches(pattern, topic) <==> Denotes(Split(pattern), Split(topic)))
            <==> TailOnly(Split(pattern))
  {
    var ps := Split(pattern);
    if TailOnly(ps) {
      forall topic: string ensures Matches(pattern, topic) <==> Denotes(ps, Split(topic)) {
        TailOnlyAgrees(ps, Split(topic));
      }
    } else {
      var topic := InnerTailOverAccepts(ps);
      SplitJoin(topic);
      assert !(Matches(pattern, Join(topic)) <==> Denotes(ps, Split(Join(topic))));
    }
  }

  /** Neither wildcard occurs as a token. */
  predicate Literal(pattern: seq<string>) {
    "*" !in pattern && ">" !in pattern
  }

  lemma {:induction false} LiteralTokens(pattern: seq<string>, topic: seq<string>)
    requires Literal(pattern)
    ensures MatchTokens(pattern, topic) <==> pattern == topic
  {
    if pattern != [] {
      assert pattern[0] in pattern;
      if topic != [] {
        LiteralTokens(pattern[1..], topic[1..]);
        assert pattern == [pattern[0]] + pattern[1..] && topic == [topic[0]] + topic[1..];
      }
    }
  }

  /** A pattern without wildcards matches itself and nothing else. */
  lemma LiteralMatchesItself(pattern: string, topic: string)
    requires Literal(Split(pattern))
    ensures Matches(pattern, topic) <==> pattern == topic
  {
    LiteralTokens(Split(pattern), Split(topic));
    assert Join(Split(pattern)) == pattern && Join(Split(topic)) == topic;
  }

  /** A topic of the tree below `prefix`: what `prefix.>` is for. */
  lemma {:induction false} TreeTokens(prefix: seq<string>, topic: seq<string>)
    requires Literal(prefix)
    ensures MatchTokens(prefix + [">"], topic) <==> prefix < topic
  {
    var pattern := prefix + [">"];
    if prefix == [] {
      assert pattern == [">"];
    } else {
      assert prefix[0] in prefix && pattern[1..] == prefix[1..] + [">"];
      if topic != [] {
        TreeTokens(prefix[1..], topic[1..]);
        assert prefix == [prefix[0]] + prefix[1..] && topic == [topic[0]] + topic[1..];
      }
    }
  }

  /** `prefix.>` matches exactly the topics with the tokens of `prefix` and at least one more. */
  lemma TreeMatches(prefix: string, topic: string)
    requires Literal(Split(prefix))
    ensures Matches(prefix + ".>", topic) <==> Split(prefix) < Split(topic)
  {
    SplitConcat(prefix, ">");
    assert prefix + "." + ">" == prefix + ".>";
    SplitToken(">");
    TreeTokens(Split(prefix), Split(topic));
  }
}
