/** Character classes, and splitting and joining dotted names as Python's `str.split(".")` and
    `".".join` do. */
module Text {

  /** `str.isspace` for one character. */
  predicate IsSpace(c: char) {
    var n := c as int;
    9 <= n <= 13 || 28 <= n <= 32 || n in {0x85, 0xA0, 0x1680, 0x2028, 0x2029, 0x202F, 0x205F, 0x3000}
    || 0x2000 <= n <= 0x200A
  }

  predicate DotFree(t: string) {
    '.' !in t
  }

  /** `s.split(".")`: never empty, and empty tokens are kept. */
  function Split(s: string): (tokens: seq<string>)
    ensures |tokens| >= 1
    ensures forall t | t in tokens :: DotFree(t)
    ensures Join(tokens) == s
  {
    if s == [] then [""]
    else
      var rest := Split(s[1..]);
      if s[0] == '.' then
        assert [""] + rest != [""] && ([""] + rest)[1..] == rest;
        [""] + rest
      else
        var tokens := [[s[0]] + rest[0]] + rest[1..];
        assert tokens[1..] == rest[1..];
        assert DotFree(rest[0]) && DotFree(tokens[0]);
        assert forall t | t in tokens :: t == tokens[0] || t in rest;
        tokens
  }

  /** `".".join(tokens)`. */
  function Join(tokens: seq<string>): string {
    if tokens == [] then ""
    else if |tokens| == 1 then tokens[0]
    else tokens[0] + "." + Join(tokens[1..])
  }

  lemma {:induction false} SplitToken(t: string)
    requires DotFree(t)
    ensures Split(t) == [t]
  {
    if t != [] {
      SplitToken(t[1..]);
      assert t == [t[0]] + t[1..];
    }
  }

  /** Splitting distributes over a dot, whatever stands on its two sides. */
  lemma {:induction false} SplitConcat(a: string, b: string)
    ensures Split(a + "." + b) == Split(a) + Split(b)
  {
    if a == [] {
      SplitStep(a + "." + b, b);
    } else {
      SplitConcat(a[1..], b);
      SplitStep(a + "." + b, a[1..] + "." + b);
      SplitStep(a, a[1..]);
      WithFirst(a[0], Split(a[1..]), Split(b));
    }
  }

  /** What the first character does to the tokens of the rest. */
  function Put(c: char, rest: seq<string>): seq<string>
    requires rest != []
  {
    if c == '.' then [""] + rest else [[c] + rest[0]] + rest[1..]
  }

  lemma SplitStep(s: string, rest: string)
    requires s != [] && s[1..] == rest
    ensures Split(s) == Put(s[0], Split(rest))
  {
  }

  lemma WithFirst(c: char, a: seq<string>, b: seq<string>)
    requires a != []
    ensures Put(c, a + b) == Put(c, a) + b
  {
    assert (a + b)[1..] == a[1..] + b;
  }

  lemma SplitAtDot(t: string, s: string)
    requires DotFree(t)
    ensures Split(t + "." + s) == [t] + Split(s)
  {
    SplitConcat(t, s);
    SplitToken(t);
  }

  /** Splitting undoes joining exactly on non-empty lists of dot-free tokens. */
  lemma {:induction false} SplitJoin(tokens: seq<string>)
    requires tokens != []
    requires forall t | t in tokens :: DotFree(t)
    ensures Split(Join(tokens)) == tokens
  {
    if |tokens| == 1 {
      SplitToken(tokens[0]);
    } else {
      SplitJoin(tokens[1..]);
      SplitAtDot(tokens[0], Join(tokens[1..]));
    }
  }

  lemma {:induction false} TokensInside(s: string)
    ensures forall t | t in Split(s) :: |t| <= |s| && forall c | c in t :: c in s
  {
    if s != [] {
      TokensInside(s[1..]);
      var rest := Split(s[1..]);
      assert rest[0] in rest && s == [s[0]] + s[1..];
      assert forall t | t in Split(s) :: t == Split(s)[0] || t in rest;
    }
  }
}
