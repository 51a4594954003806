/** The character-level matcher the cache uses to decide which cached
    subjects a newly inserted or removed pattern may concern. */
module Literals {
  import opened Tokens
  import opened Trie

  /** Index of the first separator at or after `li`, or the length of the
      literal when there is none: where the token starting at `li` ends. */
  function TokenEnd(literal: string, li: nat): (e: nat)
    requires li <= |literal|
    ensures li <= e <= |literal|
    ensures forall j | li <= j < e :: literal[j] != Sep
    ensures e < |literal| ==> literal[e] == Sep
    decreases |literal| - li
  {
    if li == |literal| || literal[li] == Sep then li else TokenEnd(literal, li + 1)
  }

  /** One step of the source's loop per character of `subject`: `i` walks the
      subject, `li` the literal. A `*` skips the rest of the literal's
      current token, a `>` accepts, any other character must be equal. As
      written, the walk accepts once the subject is used up whatever is left
      of the literal; the `exact` walk also demands the literal be used up. */
  function Walk(literal: string, subject: string, i: nat, li: nat, exact: bool): (r: bool)
    requires i <= |subject|
    ensures exact && r ==> Walk(literal, subject, i, li, false)
    decreases |subject| - i, if exact then 1 else 0
  {
    if i == |subject| then !exact || li >= |literal|
    else if li >= |literal| then false
    else if subject[i] == PartialWildcard then Walk(literal, subject, i + 1, TokenEnd(literal, li), exact)
    else if subject[i] == FullWildcard then true
    else subject[i] == literal[li] && Walk(literal, subject, i + 1, li + 1, exact)
  }

  /** The source's matchLiteral: may the pattern `subject` match the literal
      subject `literal`? Both strings are read one character at a time,
      which is what the source does on ASCII text (see MatchLiteralRunes for
      other text). Whatever the exact matcher accepts, this one accepts. */
  function MatchLiteral(literal: string, subject: string): (r: bool)
    ensures MatchLiteralExact(literal, subject) ==> r
  {
    Walk(literal, subject, 0, 0, false)
  }

  /** matchLiteral with the end-of-literal test it lacks: the pattern must
      use up the whole literal. A pattern without wildcards then matches
      exactly the subject spelled the same, where the source's test also
      accepts every subject it is a prefix of. */
  function MatchLiteralExact(literal: string, subject: string): (r: bool)
    ensures PartialWildcard !in subject && FullWildcard !in subject ==> (r <==> literal == subject)
  {
    if PartialWildcard !in subject && FullWildcard !in subject then
      WalkLiteral(literal, subject, 0, 0);
      Walk(literal, subject, 0, 0, true)
    else
      Walk(literal, subject, 0, 0, true)
  }

  /** Without wildcards ahead, the exact walk succeeds iff the rest of the
      pattern spells the rest of the literal. */
  lemma {:induction false} WalkLiteral(literal: string, subject: string, i: nat, li: nat)
    requires i <= |subject| && li <= |literal|
    requires forall j | i <= j < |subject| :: subject[j] != PartialWildcard && subject[j] != FullWildcard
    ensures Walk(literal, subject, i, li, true) <==> literal[li..] == subject[i..]
    decreases |subject| - i
  {
    if i < |subject| && li < |literal| {
      WalkLiteral(literal, subject, i + 1, li + 1);
      assert literal[li..] == [literal[li]] + literal[li + 1..];
      assert subject[i..] == [subject[i]] + subject[i + 1..];
    }
  }

  /** The source's loop, with its step back of `li` at the end of a `*` skip. */
  method MatchLiteralLoop(literal: string, subject: string) returns (r: bool)
    ensures r == MatchLiteral(literal, subject)
  {
    var li: int := 0;
    var i := 0;
    while i < |subject|
      invariant 0 <= i <= |subject|
      invariant 0 <= li
      invariant Walk(literal, subject, i, li, false) == MatchLiteral(literal, subject)
      decreases |subject| - i
    {
      var b := subject[i];
      if li >= |literal| {
        return false;
      }
      if b == PartialWildcard {
        ghost var start := li;
        while true
          invariant start <= li <= |literal|
          invariant forall j | start <= j < li :: literal[j] != Sep
          invariant TokenEnd(literal, li) == TokenEnd(literal, start)
          decreases |literal| - li
        {
          if li >= |literal| || literal[li] == Sep {
            li := li - 1;
            break;
          }
          li := li + 1;
        }
      } else if b == FullWildcard {
        return true;
      } else if b != literal[li] {
        return false;
      }
      li := li + 1;
      i := i + 1;
    }
    return true;
  }

  // ---------------------------------------------------------------------
  // Single steps of the walk

  /** Equal non-wildcard characters advance both walks together. */
  lemma {:induction false} LiteralRun(literal: string, subject: string, i: nat, li: nat, exact: bool, n: nat)
    requires i + n <= |subject| && li + n <= |literal|
    requires forall j | i <= j < i + n ::
               subject[j] == literal[li + (j - i)] && subject[j] != PartialWildcard && subject[j] != FullWildcard
    ensures Walk(literal, subject, i, li, exact) == Walk(literal, subject, i + n, li + n, exact)
    decreases n
  {
    if n > 0 {
      assert subject[i] == literal[li + (i - i)];
      LiteralRun(literal, subject, i + 1, li + 1, exact, n - 1);
    }
  }

  /** A run of non-wildcard pattern characters is accepted only where the
      literal repeats it. */
  lemma {:induction false} LiteralPrefix(literal: string, subject: string, i: nat, li: nat, exact: bool, n: nat)
    requires i + n <= |subject| && li <= |literal|
    requires forall j | i <= j < i + n :: subject[j] != PartialWildcard && subject[j] != FullWildcard
    requires Walk(literal, subject, i, li, exact)
    ensures li + n <= |literal|
    ensures forall j | i <= j < i + n :: subject[j] == literal[li + (j - i)]
    ensures Walk(literal, subject, i + n, li + n, exact)
    decreases n
  {
    if n > 0 {
      assert subject[i] != PartialWildcard && subject[i] != FullWildcard;
      assert li < |literal| && subject[i] == literal[li];
      LiteralPrefix(literal, subject, i + 1, li + 1, exact, n - 1);
      forall j | i <= j < i + n
        ensures subject[j] == literal[li + (j - i)]
      {
        if j > i {
          assert subject[j] == literal[(li + 1) + (j - (i + 1))];
        }
      }
    }
  }

  lemma {:induction false} TokenEndSkips(literal: string, li: nat, e: nat)
    requires li <= e <= |literal|
    requires forall j | li <= j < e :: literal[j] != Sep
    requires e == |literal| || literal[e] == Sep
    ensures TokenEnd(literal, li) == e
    decreases e - li
  {
    if li < e {
      TokenEndSkips(literal, li + 1, e);
    }
  }

  lemma SkipStep(literal: string, subject: string, i: nat, li: nat, exact: bool)
    requires i < |subject| && li < |literal| && subject[i] == PartialWildcard
    ensures Walk(literal, subject, i, li, exact) == Walk(literal, subject, i + 1, TokenEnd(literal, li), exact)
  {
  }

  lemma FullStep(literal: string, subject: string, i: nat, li: nat, exact: bool)
    requires i < |subject| && li < |literal| && subject[i] == FullWildcard
    ensures Walk(literal, subject, i, li, exact)
  {
  }

  lemma SepStep(literal: string, subject: string, i: nat, li: nat, exact: bool)
    requires i < |subject| && subject[i] == Sep
    ensures Walk(literal, subject, i, li, exact) == (li < |literal| && literal[li] == Sep && Walk(literal, subject, i + 1, li + 1, exact))
  {
  }

  /** The characters of a slice are those of the sliced sequence. */
  lemma SliceChars(s: string, i: nat, t: string)
    requires i + |t| <= |s| && s[i..i + |t|] == t
    ensures forall j | i <= j < i + |t| :: s[j] == t[j - i]
  {
    forall j | i <= j < i + |t|
      ensures s[j] == t[j - i]
    {
      assert s[i..i + |t|][j - i] == s[j];
    }
  }

  /** Where the first token of a join sits inside a string that ends with it. */
  lemma JoinAt(s: string, i: nat, tokens: seq<string>)
    requires i <= |s| && |tokens| >= 1 && s[i..] == Join(tokens)
    ensures i + |tokens[0]| <= |s|
    ensures s[i..i + |tokens[0]|] == tokens[0]
    ensures |tokens| == 1 ==> i + |tokens[0]| == |s|
    ensures |tokens| > 1 ==> i + |tokens[0]| < |s| && s[i + |tokens[0]|] == Sep
    ensures |tokens| > 1 ==> s[i + |tokens[0]| + 1..] == Join(tokens[1..])
  {
    JoinHead(tokens);
    var e := i + |tokens[0]|;
    assert s[i..e] == s[i..][..|tokens[0]|];
    if |tokens| > 1 {
      assert s[e] == s[i..][|tokens[0]|];
      assert s[e + 1..] == s[i..][|tokens[0]| + 1..];
    }
  }

  /** Both walks cross one token: a `*` skips the literal's token, a
      literal token is compared character by character. */
  lemma TokenStep(literal: string, subject: string, i: nat, li: nat, exact: bool, p: string, k: string)
    requires WellFormedToken(p) && |k| > 0 && Sep !in k
    requires i + |p| <= |subject| && subject[i..i + |p|] == p
    requires li + |k| <= |literal| && literal[li..li + |k|] == k
    requires li + |k| == |literal| || literal[li + |k|] == Sep
    requires p == [PartialWildcard] || (p == k && TokenKey(p).Literal?)
    ensures Walk(literal, subject, i, li, exact) == Walk(literal, subject, i + |p|, li + |k|, exact)
  {
    SliceChars(subject, i, p);
    SliceChars(literal, li, k);
    if p == [PartialWildcard] {
      TokenEndSkips(literal, li, li + |k|);
      SkipStep(literal, subject, i, li, exact);
    } else {
      assert PartialWildcard !in p && FullWildcard !in p;
      forall j | i <= j < i + |p|
        ensures subject[j] == literal[li + (j - i)]
        ensures subject[j] != PartialWildcard && subject[j] != FullWildcard
      {
        assert subject[j] == p[j - i];
        assert literal[li + (j - i)] == k[j - i];
      }
      LiteralRun(literal, subject, i, li, exact, |p|);
    }
  }

  // ---------------------------------------------------------------------
  // Bytes and runes

  /** Text made of ASCII characters only. */
  predicate Ascii(s: string)
  {
    forall k | 0 <= k < |s| :: s[k] as int < 0x80
  }

  /** The UTF-8 encoding of a character, one byte per element, each byte
      written as the character with that code. An ASCII character is its own
      encoding; every byte of a longer encoding is 0x80 or above, so it is
      never `.`, `*` or `>`. */
  function Utf8(c: char): (bs: string)
    ensures 1 <= |bs| <= 4
    ensures forall j | 0 <= j < |bs| :: bs[j] as int < 0x100
    ensures c as int < 0x80 <==> |bs| == 1 && bs[0] == c
    ensures c as int >= 0x80 ==> forall j | 0 <= j < |bs| :: bs[j] as int >= 0x80
  {
    var v := c as int;
    if v < 0x80 then [c]
    else if v < 0x800 then [(0xC0 + v / 0x40) as char, (0x80 + v % 0x40) as char]
    else if v < 0x1_0000 then
      [(0xE0 + v / 0x1000) as char, (0x80 + (v / 0x40) % 0x40) as char, (0x80 + v % 0x40) as char]
    else
      [(0xF0 + v / 0x4_0000) as char, (0x80 + (v / 0x1000) % 0x40) as char,
       (0x80 + (v / 0x40) % 0x40) as char, (0x80 + v % 0x40) as char]
  }

  /** The bytes of a Go string holding `s`. ASCII text is its own byte string. */
  function Bytes(s: string): (b: string)
    ensures Ascii(s) ==> b == s
  {
    if |s| == 0 then []
    else
      assert Ascii(s) ==> Ascii(s[1..]) by {
        assert forall k | 0 <= k < |s| - 1 :: s[1..][k] == s[k + 1];
      }
      Utf8(s[0]) + Bytes(s[1..])
  }

  /** The byte `subject[i]` reads at each offset `for i := range subject`
      visits: the first byte of each character. */
  function Leads(s: string): (l: string)
    ensures |l| == |s|
    ensures forall k | 0 <= k < |s| :: l[k] == Utf8(s[k])[0]
  {
    seq(|s|, k requires 0 <= k < |s| => Utf8(s[k])[0])
  }

  /** matchLiteral as the source runs it on the bytes of Go strings: its loop
      visits the pattern one character (rune) at a time and reads that
      character's first byte, while the cursor into the literal moves one
      byte per step. On ASCII text that is the character walk MatchLiteral. */
  function MatchLiteralRunes(literal: string, subject: string): (r: bool)
    ensures Ascii(literal) && Ascii(subject) ==> r == MatchLiteral(literal, subject)
  {
    assert Ascii(subject) ==> Leads(subject) == subject;
    MatchLiteral(Bytes(literal), Leads(subject))
  }

  /** On a two-byte character the rune-stepped loop falls out of step with
      the literal: the pattern `é.x` is not selected for the topic `é.x`,
      which it matches token by token, while the character walk selects it. */
  lemma MatchLiteralRunesMisses()
    ensures !MatchLiteralRunes("\U{E9}.x", "\U{E9}.x")
    ensures MatchLiteral("\U{E9}.x", "\U{E9}.x")
    ensures KeyMatch(PathOf("\U{E9}.x"), Split("\U{E9}.x"))
  {
    var t := "\U{E9}.x";
    assert Utf8(t[0]) == ['\U{C3}', '\U{A9}'];
    assert Bytes(t) == ['\U{C3}', '\U{A9}', '.', 'x'];
    assert Leads(t) == ['\U{C3}', '.', 'x'];
    AccentTopic();
  }

  /** The two tokens of the topic `é.x`. */
  lemma AccentTopic()
    ensures Split("\U{E9}.x") == ["\U{E9}", "x"]
  {
    SplitSingle("\U{E9}");
    SplitSingle("x");
    SplitAtSep("\U{E9}", "x");
    assert "\U{E9}" + [Sep] + "x" == "\U{E9}.x";
  }

  // ---------------------------------------------------------------------
  // Agreement with token-wise matching

  /** Pattern tokens as the trie accepts them, topic tokens as published. */
  predicate PatternTokens(ptoks: seq<string>)
  {
    NoSep(ptoks) && forall j | 0 <= j < |ptoks| :: WellFormedToken(ptoks[j])
  }

  predicate TopicTokens(ktoks: seq<string>)
  {
    NoSep(ktoks) && forall j | 0 <= j < |ktoks| :: |ktoks[j]| > 0
  }

  /** `>` appears, if at all, as the last token only. */
  predicate FullLast(ptoks: seq<string>)
  {
    forall j | 0 <= j < |ptoks| - 1 :: ptoks[j] != [FullWildcard]
  }

  /** A pattern as subscribers write it: well-formed tokens and `>` last. */
  predicate Subscribable(pattern: string)
  {
    WellFormedPattern(pattern) && FullLast(Split(pattern))
  }

  lemma PatternTokensTail(ptoks: seq<string>)
    requires |ptoks| >= 1 && PatternTokens(ptoks)
    ensures PatternTokens(ptoks[1..])
    ensures FullLast(ptoks) ==> FullLast(ptoks[1..])
  {
    assert forall j | 0 <= j < |ptoks| - 1 :: ptoks[1..][j] == ptoks[j + 1];
  }

  lemma TopicTokensTail(ktoks: seq<string>)
    requires |ktoks| >= 1 && TopicTokens(ktoks)
    ensures TopicTokens(ktoks[1..])
  {
    assert forall j | 0 <= j < |ktoks| - 1 :: ktoks[1..][j] == ktoks[j + 1];
  }

  /** What token-wise matching says about the first tokens, when the first
      pattern token is not `>`. */
  lemma KeyMatchHead(ptoks: seq<string>, ktoks: seq<string>)
    requires |ptoks| >= 1 && PatternTokens(ptoks)
    requires TokenKey(ptoks[0]) != Full
    ensures KeyMatch(PatternKeys(ptoks), ktoks) <==>
      && |ktoks| >= 1
      && (ptoks[0] == [PartialWildcard] || ptoks[0] == ktoks[0])
      && KeyMatch(PatternKeys(ptoks[1..]), ktoks[1..])
  {
    assert WellFormedToken(ptoks[0]);
    PatternKeysTail(ptoks);
    PatternTokensTail(ptoks);
  }

  lemma {:induction false} WalkSound(literal: string, subject: string, i: nat, li: nat, exact: bool,
                                     ptoks: seq<string>, ktoks: seq<string>)
    requires i <= |subject| && li <= |literal|
    requires |ptoks| >= 1 && PatternTokens(ptoks) && TopicTokens(ktoks)
    requires subject[i..] == Join(ptoks)
    requires |ktoks| >= 1 ==> literal[li..] == Join(ktoks)
    requires KeyMatch(PatternKeys(ptoks), ktoks)
    ensures Walk(literal, subject, i, li, exact)
    decreases |ptoks|, 2
  {
    var p := ptoks[0];
    assert WellFormedToken(p);
    if TokenKey(p) == Full {
      JoinAt(subject, i, ptoks);
      SliceChars(subject, i, p);
      assert |ktoks| >= 1 && |ktoks[0]| > 0;
      JoinAt(literal, li, ktoks);
      FullStep(literal, subject, i, li, exact);
    } else {
      WalkSoundStep(literal, subject, i, li, exact, ptoks, ktoks);
    }
  }

  /** The walks cross a `*` or literal token. */
  lemma {:induction false} WalkSoundStep(literal: string, subject: string, i: nat, li: nat, exact: bool,
                                         ptoks: seq<string>, ktoks: seq<string>)
    requires i <= |subject| && li <= |literal|
    requires |ptoks| >= 1 && PatternTokens(ptoks) && TopicTokens(ktoks)
    requires subject[i..] == Join(ptoks)
    requires |ktoks| >= 1 ==> literal[li..] == Join(ktoks)
    requires KeyMatch(PatternKeys(ptoks), ktoks)
    requires TokenKey(ptoks[0]) != Full
    ensures Walk(literal, subject, i, li, exact)
    decreases |ptoks|, 1
  {
    HeadStep(literal, subject, i, li, exact, ptoks, ktoks);
    var pe, ke := i + |ptoks[0]|, li + |ktoks[0]|;
    if |ptoks| > 1 {
      PatternTokensTail(ptoks);
      TopicTokensTail(ktoks);
      WalkSoundTail(literal, subject, pe, ke, exact, ptoks[1..], ktoks[1..]);
    }
  }

  /** Where the walks stand after the first `*` or literal token, and what
      remains to be matched. */
  lemma HeadStep(literal: string, subject: string, i: nat, li: nat, exact: bool,
                 ptoks: seq<string>, ktoks: seq<string>)
    requires i <= |subject| && li <= |literal|
    requires |ptoks| >= 1 && PatternTokens(ptoks) && TopicTokens(ktoks)
    requires subject[i..] == Join(ptoks)
    requires |ktoks| >= 1 ==> literal[li..] == Join(ktoks)
    requires KeyMatch(PatternKeys(ptoks), ktoks)
    requires TokenKey(ptoks[0]) != Full
    ensures |ktoks| >= 1
    ensures i + |ptoks[0]| <= |subject| && li + |ktoks[0]| <= |literal|
    ensures Walk(literal, subject, i, li, exact) ==
            Walk(literal, subject, i + |ptoks[0]|, li + |ktoks[0]|, exact)
    ensures |ptoks| == 1 ==> i + |ptoks[0]| == |subject| && li + |ktoks[0]| == |literal|
    ensures |ptoks| > 1 ==>
      && |ktoks| > 1
      && i + |ptoks[0]| < |subject| && subject[i + |ptoks[0]|] == Sep
      && subject[i + |ptoks[0]| + 1..] == Join(ptoks[1..])
      && li + |ktoks[0]| < |literal| && literal[li + |ktoks[0]|] == Sep
      && literal[li + |ktoks[0]| + 1..] == Join(ktoks[1..])
      && KeyMatch(PatternKeys(ptoks[1..]), ktoks[1..])
  {
    var p := ptoks[0];
    KeyMatchHead(ptoks, ktoks);
    var k := ktoks[0];
    assert WellFormedToken(p) && |k| > 0 && Sep !in k;
    KeyMatchLength(PatternKeys(ptoks[1..]), ktoks[1..]);
    JoinAt(subject, i, ptoks);
    JoinAt(literal, li, ktoks);
    TokenStep(literal, subject, i, li, exact, p, k);
  }

  /** The walks cross the separator and go on with the remaining tokens. */
  lemma {:induction false} WalkSoundTail(literal: string, subject: string, pe: nat, ke: nat, exact: bool,
                                         ptail: seq<string>, ktail: seq<string>)
    requires |ptail| >= 1 && PatternTokens(ptail)
    requires pe < |subject| && subject[pe] == Sep && subject[pe + 1..] == Join(ptail)
    requires |ktail| >= 1 && TopicTokens(ktail)
    requires ke < |literal| && literal[ke] == Sep && literal[ke + 1..] == Join(ktail)
    requires KeyMatch(PatternKeys(ptail), ktail)
    ensures Walk(literal, subject, pe, ke, exact)
    decreases |ptail| + 1, 0
  {
    WalkSound(literal, subject, pe + 1, ke + 1, exact, ptail, ktail);
    SepStep(literal, subject, pe, ke, exact);
  }

  /** A literal pattern token is accepted only against an equal topic token. */
  lemma LiteralTokenEqual(literal: string, subject: string, i: nat, li: nat, p: string, k: string, last: bool)
    requires WellFormedToken(p) && TokenKey(p).Literal? && Sep !in p && |k| > 0 && Sep !in k
    requires i + |p| <= |subject| && subject[i..i + |p|] == p
    requires last <==> i + |p| == |subject|
    requires !last ==> subject[i + |p|] == Sep
    requires li + |k| <= |literal| && literal[li..li + |k|] == k
    requires li + |k| == |literal| || literal[li + |k|] == Sep
    requires Walk(literal, subject, i, li, true)
    ensures p == k
  {
    SliceChars(subject, i, p);
    SliceChars(literal, li, k);
    assert PartialWildcard !in p && FullWildcard !in p;
    assert forall j | i <= j < i + |p| :: subject[j] != PartialWildcard && subject[j] != FullWildcard;
    LiteralPrefix(literal, subject, i, li, true, |p|);
    var e := li + |p|;
    assert e == |literal| || literal[e] == Sep by {
      if !last {
        SepStep(literal, subject, i + |p|, e, true);
      }
    }
    forall j | li <= j < e
      ensures literal[j] != Sep
    {
      var x := i + (j - li);
      assert subject[x] == literal[li + (x - i)];
      assert subject[x] == p[x - i];
    }
    forall j | li <= j < li + |k|
      ensures literal[j] != Sep
    {
      assert literal[j] == k[j - li];
    }
    TokenEndSkips(literal, li, e);
    TokenEndSkips(literal, li, li + |k|);
    assert p == k by {
      assert |p| == |k|;
      forall j | 0 <= j < |p|
        ensures p[j] == k[j]
      {
        var x := i + j;
        assert subject[x] == literal[li + (x - i)];
        assert subject[x] == p[x - i];
        var y := li + j;
        assert literal[y] == k[y - li];
      }
    }
  }

  /** The exact walk accepts only what matches token-wise. */
  lemma {:induction false} WalkComplete(literal: string, subject: string, i: nat, li: nat,
                                        ptoks: seq<string>, ktoks: seq<string>)
    requires i <= |subject| && li <= |literal|
    requires |ptoks| >= 1 && PatternTokens(ptoks) && FullLast(ptoks)
    requires |ktoks| >= 1 && TopicTokens(ktoks)
    requires subject[i..] == Join(ptoks) && literal[li..] == Join(ktoks)
    requires Walk(literal, subject, i, li, true)
    ensures KeyMatch(PatternKeys(ptoks), ktoks)
    decreases |ptoks|, 1
  {
    var p := ptoks[0];
    var k := ktoks[0];
    assert WellFormedToken(p) && Sep !in p && |k| > 0 && Sep !in k;
    if TokenKey(p) == Full {
      assert p == [FullWildcard];
      assert |ptoks| == 1;
    } else {
      JoinAt(subject, i, ptoks);
      JoinAt(literal, li, ktoks);
      if TokenKey(p).Literal? {
        LiteralTokenEqual(literal, subject, i, li, p, k, |ptoks| == 1);
      }
      TokenStep(literal, subject, i, li, true, p, k);
      if |ptoks| > 1 {
        PatternTokensTail(ptoks);
        if |ktoks| > 1 {
          TopicTokensTail(ktoks);
        }
        WalkCompleteTail(literal, subject, i + |p|, li + |k|, ptoks[1..], ktoks[1..]);
      }
      KeyMatchHead(ptoks, ktoks);
    }
  }

  /** After a token, the exact walk must cross a separator in both strings
      and go on matching the remaining tokens. */
  lemma {:induction false} WalkCompleteTail(literal: string, subject: string, pe: nat, ke: nat,
                                            ptail: seq<string>, ktail: seq<string>)
    requires |ptail| >= 1 && PatternTokens(ptail) && FullLast(ptail)
    requires pe < |subject| && subject[pe] == Sep && subject[pe + 1..] == Join(ptail)
    requires ke <= |literal|
    requires ke < |literal| ==> |ktail| >= 1 && TopicTokens(ktail) && literal[ke] == Sep && literal[ke + 1..] == Join(ktail)
    requires Walk(literal, subject, pe, ke, true)
    ensures ke < |literal| && KeyMatch(PatternKeys(ptail), ktail)
    decreases |ptail| + 1, 0
  {
    SepStep(literal, subject, pe, ke, true);
    WalkComplete(literal, subject, pe + 1, ke + 1, ptail, ktail);
  }

  /** Every cached subject that a pattern matches token-wise is among those
      the source's matcher selects. */
  lemma MatchLiteralSound(literal: string, pattern: string)
    requires WellFormedPattern(pattern) && ValidTopic(literal)
    ensures KeyMatch(PathOf(pattern), Split(literal)) ==> MatchLiteral(literal, pattern)
  {
    if KeyMatch(PathOf(pattern), Split(literal)) {
      JoinSplit(pattern);
      JoinSplit(literal);
      assert PatternTokens(Split(pattern));
      WalkSound(literal, pattern, 0, 0, false, Split(pattern), Split(literal));
    }
  }

  /** The exact matcher agrees with token-wise matching in both directions,
      for patterns as subscribers write them and topics as published. */
  lemma MatchLiteralExactIff(literal: string, pattern: string)
    requires Subscribable(pattern) && ValidTopic(literal)
    ensures MatchLiteralExact(literal, pattern) <==> KeyMatch(PathOf(pattern), Split(literal))
  {
    JoinSplit(pattern);
    JoinSplit(literal);
    assert PatternTokens(Split(pattern));
    if KeyMatch(PathOf(pattern), Split(literal)) {
      WalkSound(literal, pattern, 0, 0, true, Split(pattern), Split(literal));
    }
    if MatchLiteralExact(literal, pattern) {
      WalkComplete(literal, pattern, 0, 0, Split(pattern), Split(literal));
    }
  }

  /** MatchLiteralSound for every topic at once. */
  lemma MatchLiteralSoundAll(pattern: string)
    ensures WellFormedPattern(pattern) ==>
              forall k | ValidTopic(k) && KeyMatch(PathOf(pattern), Split(k)) :: MatchLiteral(k, pattern)
  {
    if WellFormedPattern(pattern) {
      forall k | ValidTopic(k) && KeyMatch(PathOf(pattern), Split(k))
        ensures MatchLiteral(k, pattern)
      {
        MatchLiteralSound(k, pattern);
      }
    }
  }

  /** MatchLiteralExactIff for every topic at once. */
  lemma MatchLiteralExactAll(pattern: string)
    ensures Subscribable(pattern) ==>
              forall k | ValidTopic(k) :: MatchLiteralExact(k, pattern) <==> KeyMatch(PathOf(pattern), Split(k))
  {
    if Subscribable(pattern) {
      forall k | ValidTopic(k)
        ensures MatchLiteralExact(k, pattern) <==> KeyMatch(PathOf(pattern), Split(k))
      {
        MatchLiteralExactIff(k, pattern);
      }
    }
  }

  /** The source's own table of cases. */
  lemma MatchLiteralCases()
    ensures MatchLiteral("foo", "foo")
    ensures !MatchLiteral("foo", "bar")
    ensures MatchLiteral("foo", "*")
    ensures MatchLiteral("foo", ">")
    ensures MatchLiteral("foo.bar", ">")
    ensures MatchLiteral("foo.bar", "foo.>")
    ensures !MatchLiteral("foo.bar", "bar.>")
    ensures MatchLiteral("stats.test.22", "stats.>")
    ensures MatchLiteral("stats.test.22", "stats.*.*")
  {
    ShortCases();
    StatsCases();
  }

  /** The same table passes with the exact matcher. */
  lemma MatchLiteralExactCases()
    ensures MatchLiteralExact("foo", "foo")
    ensures !MatchLiteralExact("foo", "bar")
    ensures MatchLiteralExact("foo", "*")
    ensures MatchLiteralExact("foo", ">")
    ensures MatchLiteralExact("foo.bar", ">")
    ensures MatchLiteralExact("foo.bar", "foo.>")
    ensures !MatchLiteralExact("foo.bar", "bar.>")
    ensures MatchLiteralExact("stats.test.22", "stats.>")
    ensures MatchLiteralExact("stats.test.22", "stats.*.*")
  {
    ShortCases();
    StatsCases();
  }

  /** The rows of the table on short subjects, for both matchers. */
  lemma ShortCases()
    ensures MatchLiteralExact("foo", "foo") && MatchLiteral("foo", "foo")
    ensures !MatchLiteralExact("foo", "bar") && !MatchLiteral("foo", "bar")
    ensures MatchLiteralExact("foo", "*") && MatchLiteralExact("foo", ">")
    ensures MatchLiteralExact("foo.bar", ">") && MatchLiteralExact("foo.bar", "foo.>")
    ensures !MatchLiteralExact("foo.bar", "bar.>") && !MatchLiteral("foo.bar", "bar.>")
  {
  }

  /** The two rows on `stats.test.22`, for both matchers. */
  lemma StatsCases()
    ensures MatchLiteralExact("stats.test.22", "stats.>")
    ensures MatchLiteralExact("stats.test.22", "stats.*.*")
  {
  }

  /** As written, the matcher accepts once the pattern is used up, so a
      pattern that is a proper prefix of the literal is selected although it
      does not match it token-wise; the exact matcher rejects it. */
  lemma MatchLiteralAcceptsPrefix()
    ensures MatchLiteral("foo.bar", "foo")
    ensures !MatchLiteralExact("foo.bar", "foo")
    ensures !KeyMatch(PathOf("foo"), Split("foo.bar"))
  {
    SplitSingle("foo");
    SplitSingle("bar");
    SplitAtSep("foo", "bar");
    assert "foo" + [Sep] + "bar" == "foo.bar";
  }
}
