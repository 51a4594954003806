/** Subjects and patterns are strings of tokens separated by `.`.
    This module splits and joins them and states which token sequences
    the trie accepts. */
module Tokens {

  const Sep: char := '.'
  const PartialWildcard: char := '*'
  const FullWildcard: char := '>'

  /** Split a subject at every separator, left to right, keeping empty tokens. */
  function Split(subject: string): (tokens: seq<string>)
    ensures |tokens| >= 1
    ensures forall i | 0 <= i < |tokens| :: Sep !in tokens[i]
  {
    if |subject| == 0 then [""]
    else if subject[0] == Sep then [""] + Split(subject[1..])
    else
      var rest := Split(subject[1..]);
      [[subject[0]] + rest[0]] + rest[1..]
  }

  predicate NoSep(tokens: seq<string>)
  {
    forall i | 0 <= i < |tokens| :: Sep !in tokens[i]
  }

  /** Glue tokens back together with one separator between neighbours. */
  function Join(tokens: seq<string>): string
    requires |tokens| >= 1
  {
    if |tokens| == 1 then tokens[0] else tokens[0] + [Sep] + Join(tokens[1..])
  }

  /** Joining separator-free tokens puts exactly one `.` between neighbours
      and none anywhere else. */
  lemma {:induction false} JoinSepCount(tokens: seq<string>)
    requires |tokens| >= 1 && NoSep(tokens)
    ensures multiset(Join(tokens))[Sep] == |tokens| - 1
    decreases |tokens|
  {
    if |tokens| > 1 {
      assert NoSep(tokens[1..]) by {
        assert forall i | 0 <= i < |tokens| - 1 :: tokens[1..][i] == tokens[i + 1];
      }
      JoinSepCount(tokens[1..]);
      var j := Join(tokens);
      assert j == tokens[0] + [Sep] + Join(tokens[1..]);
      assert multiset(j) == multiset(tokens[0]) + multiset{Sep} + multiset(Join(tokens[1..]));
    }
  }

  /** Splitting yields one more token than there are separators. */
  lemma {:induction false} SplitCount(subject: string)
    ensures |Split(subject)| == multiset(subject)[Sep] + 1
  {
    if |subject| > 0 {
      SplitCount(subject[1..]);
      assert subject == [subject[0]] + subject[1..];
      assert multiset(subject) == multiset{subject[0]} + multiset(subject[1..]);
    }
  }

  /** Joining the tokens of a split gives back the subject. */
  lemma {:induction false} JoinSplit(subject: string)
    ensures Join(Split(subject)) == subject
  {
    if |subject| > 0 {
      var rest := Split(subject[1..]);
      JoinSplit(subject[1..]);
      if subject[0] == Sep {
        assert Split(subject) == [""] + rest;
        assert Split(subject)[1..] == rest;
      } else {
        var toks := Split(subject);
        assert toks == [[subject[0]] + rest[0]] + rest[1..];
        if |rest| == 1 {
          assert Join(toks) == [subject[0]] + rest[0];
        } else {
          assert toks[1..] == rest[1..];
          assert Join(rest) == rest[0] + [Sep] + Join(rest[1..]);
          assert Join(toks) == [subject[0]] + rest[0] + [Sep] + Join(rest[1..]);
        }
      }
    }
  }

  /** A separator-free string is a single token. */
  lemma {:induction false} SplitSingle(token: string)
    requires Sep !in token
    ensures Split(token) == [token]
  {
    if |token| > 0 {
      SplitSingle(token[1..]);
      assert [token[0]] + token[1..] == token;
    }
  }

  /** Splitting at the first separator: a separator-free head becomes the first token. */
  lemma {:induction false} SplitAtSep(head: string, tail: string)
    requires Sep !in head
    ensures Split(head + [Sep] + tail) == [head] + Split(tail)
  {
    if |head| == 0 {
      assert head + [Sep] + tail == [Sep] + tail;
      assert ([Sep] + tail)[1..] == tail;
    } else {
      var s := head + [Sep] + tail;
      assert s[1..] == head[1..] + [Sep] + tail;
      SplitAtSep(head[1..], tail);
      assert [head[0]] + head[1..] == head;
    }
  }

  /** A separator followed by a separator-free tail adds that tail as a
      last token and leaves the tokens before it alone. */
  lemma {:induction false} SplitBeforeLast(init: string, last: string)
    requires Sep !in last
    ensures Split(init + [Sep] + last) == Split(init) + [last]
  {
    var s := init + [Sep] + last;
    if |init| == 0 {
      assert s == [Sep] + last;
      assert s[1..] == last;
      SplitSingle(last);
    } else {
      assert s[1..] == init[1..] + [Sep] + last;
      SplitBeforeLast(init[1..], last);
    }
  }

  /** Splitting the join of separator-free tokens gives back the tokens. */
  lemma {:induction false} SplitJoin(tokens: seq<string>)
    requires |tokens| >= 1
    requires NoSep(tokens)
    ensures Split(Join(tokens)) == tokens
  {
    if |tokens| == 1 {
      SplitSingle(tokens[0]);
    } else {
      SplitJoin(tokens[1..]);
      SplitAtSep(tokens[0], Join(tokens[1..]));
      assert [tokens[0]] + tokens[1..] == tokens;
    }
  }

  /** Facts about the characters of a join, used by the character-level matcher. */
  lemma {:induction false} JoinHead(tokens: seq<string>)
    requires |tokens| >= 1
    ensures |Join(tokens)| >= |tokens[0]|
    ensures Join(tokens)[..|tokens[0]|] == tokens[0]
    ensures |tokens| == 1 ==> |Join(tokens)| == |tokens[0]|
    ensures |tokens| > 1 ==> |Join(tokens)| > |tokens[0]|
    ensures |tokens| > 1 ==> Join(tokens)[|tokens[0]|] == Sep
    ensures |tokens| > 1 ==> Join(tokens)[|tokens[0]| + 1..] == Join(tokens[1..])
  {
    if |tokens| > 1 {
      var j := Join(tokens);
      assert j == tokens[0] + [Sep] + Join(tokens[1..]);
      assert j[..|tokens[0]|] == tokens[0];
      assert j[|tokens[0]| + 1..] == Join(tokens[1..]);
    }
  }

  /** Every token is non-empty. Insert indexes the first byte of each token,
      so a pattern with an empty token is outside its domain; a published
      topic with an empty token is not a valid topic. */
  predicate TokensNonEmpty(subject: string)
  {
    var tokens := Split(subject);
    forall i | 0 <= i < |tokens| :: |tokens[i]| > 0
  }

  /** A published topic: every token non-empty. */
  predicate ValidTopic(topic: string)
  {
    TokensNonEmpty(topic)
  }

  /** A pattern token is non-empty, and a wildcard character only ever
      appears as a whole `*` or `>` token. */
  predicate WellFormedToken(token: string)
  {
    && |token| > 0
    && ((PartialWildcard in token || FullWildcard in token) ==>
          token == [PartialWildcard] || token == [FullWildcard])
  }

  predicate WellFormedPattern(pattern: string)
  {
    var tokens := Split(pattern);
    forall i | 0 <= i < |tokens| :: WellFormedToken(tokens[i])
  }
}
