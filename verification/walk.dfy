/** The character walks the scanner performs on its input iterator: collect a
    run up to a stopping character, consume that character, keep the rest. */
module Walk {

  /** What a walk collected and what remains of the input after it. */
  datatype Split = Split(taken: seq<char>, rest: seq<char>)

  /** Consumes `s` up to and including the first character satisfying `stop`;
      the stopping character is consumed but not kept. Without one, the whole
      input is taken and nothing remains. */
  function TakeUntil(s: seq<char>, stop: char -> bool): (r: Split)
    ensures r.taken <= s
    ensures forall i :: 0 <= i < |r.taken| ==> !stop(r.taken[i])
    ensures |r.taken| == |s| ==> r.rest == []
    ensures |r.taken| < |s| ==> stop(s[|r.taken|]) && r.rest == s[|r.taken| + 1..]
    decreases |s|
  {
    if |s| == 0 then Split([], [])
    else if stop(s[0]) then Split([], s[1..])
    else
      var r := TakeUntil(s[1..], stop);
      Split([s[0]] + r.taken, r.rest)
  }

  /** The walk splits the input and loses nothing: the input is the run, then
      the stopping character if there was one, then the rest. */
  lemma TakeUntilReassembles(s: seq<char>, stop: char -> bool)
    ensures var r := TakeUntil(s, stop);
      (|r.taken| == |s| && s == r.taken) ||
      (|r.taken| < |s| && s == r.taken + [s[|r.taken|]] + r.rest)
  {
    var r := TakeUntil(s, stop);
    if |r.taken| < |s| {
      assert s == s[..|r.taken|] + [s[|r.taken|]] + s[|r.taken| + 1..];
    }
  }

  /** The split is the only one possible: any decomposition of the input into a
      stop-free run, a stopping character and a remainder is the walk's. */
  lemma {:induction false} TakeUntilUnique(p: seq<char>, c: char, q: seq<char>, stop: char -> bool)
    requires forall i :: 0 <= i < |p| ==> !stop(p[i])
    requires stop(c)
    ensures TakeUntil(p + [c] + q, stop) == Split(p, q)
    decreases |p|
  {
    var s := p + [c] + q;
    SplitAt(p, c, q);
    if |p| == 0 {
      assert s[0] == c && s[1..] == q;
    } else {
      assert s[0] == p[0] && !stop(s[0]);
      TakeUntilUnique(p[1..], c, q, stop);
      assert s[1..] == p[1..] + [c] + q;
    }
  }

  /** Indexing into a run, a character and a rest. */
  lemma SplitAt(p: seq<char>, c: char, q: seq<char>)
    ensures |p| == 0 ==> (p + [c] + q)[0] == c && (p + [c] + q)[1..] == q
    ensures |p| > 0 ==> (p + [c] + q)[0] == p[0] && (p + [c] + q)[1..] == p[1..] + [c] + q
  {
    if |p| > 0 {
      assert (p + [c] + q)[1..] == p[1..] + [c] + q;
    } else {
      assert p + [c] + q == [c] + q;
    }
  }

  /** A stop-free input is taken whole. */
  lemma {:induction false} TakeUntilWhole(s: seq<char>, stop: char -> bool)
    requires forall i :: 0 <= i < |s| ==> !stop(s[i])
    ensures TakeUntil(s, stop) == Split(s, [])
    decreases |s|
  {
    if |s| > 0 {
      TakeUntilWhole(s[1..], stop);
      assert s == [s[0]] + s[1..];
    }
  }

  /** The characters that end a word or number run. */
  predicate IsDelimiter(c: char) {
    c == ' ' || c == '\t' || c == '\n'
  }

  /** `walk_to_next_whitespace`: the run is `first` followed by everything up to
      the next space, tab or line feed; that delimiter is consumed, not kept. */
  function WalkToNextWhitespace(first: char, s: seq<char>): (r: Split)
    ensures |r.taken| > 0 && r.taken[0] == first
    ensures r.taken[1..] <= s
    ensures forall i :: 1 <= i < |r.taken| ==> !IsDelimiter(r.taken[i])
    ensures |r.taken| - 1 == |s| ==> r.rest == []
    ensures |r.taken| - 1 < |s| ==>
      IsDelimiter(s[|r.taken| - 1]) && r.rest == s[|r.taken|..]
  {
    var w := TakeUntil(s, IsDelimiter);
    assert ([first] + w.taken)[1..] == w.taken;
    Split([first] + w.taken, w.rest)
  }

  /** What a run collects from `body + tail` when `body` holds no delimiter and
      `tail` is empty or starts with one: exactly `body`, and the delimiter is
      consumed. */
  lemma WalkToNextWhitespaceRun(c: char, body: seq<char>, tail: seq<char>)
    requires forall i :: 0 <= i < |body| ==> !IsDelimiter(body[i])
    requires tail == [] || IsDelimiter(tail[0])
    ensures WalkToNextWhitespace(c, body + tail) == Split([c] + body, if tail == [] then [] else tail[1..])
  {
    if tail == [] {
      TakeUntilWhole(body, IsDelimiter);
      assert body + tail == body;
    } else {
      TakeUntilUnique(body, tail[0], tail[1..], IsDelimiter);
      assert body + tail == body + [tail[0]] + tail[1..];
    }
  }

  predicate IsQuote(c: char) {
    c == '"'
  }

  predicate IsLineFeed(c: char) {
    c == '\n'
  }

  /** `walk_to_next_quote`: the body is everything up to the next double quote,
      or to the end of input when there is none; the quote is consumed. */
  function WalkToNextQuote(s: seq<char>): (r: Split)
    ensures r.taken <= s
    ensures '"' !in r.taken
    ensures |r.taken| == |s| ==> r.rest == []
    ensures |r.taken| < |s| ==> s[|r.taken|] == '"' && r.rest == s[|r.taken| + 1..]
  {
    var w := TakeUntil(s, IsQuote);
    assert forall i :: 0 <= i < |w.taken| ==> w.taken[i] != '"';
    w
  }

  /** What `walk_to_next_quote` takes from `body + tail` when `body` holds no
      double quote and `tail` is empty or starts with one: exactly `body`,
      and the closing quote is consumed. */
  lemma WalkToNextQuoteRun(body: seq<char>, tail: seq<char>)
    requires '"' !in body
    requires tail == [] || tail[0] == '"'
    ensures WalkToNextQuote(body + tail) == Split(body, if tail == [] then [] else tail[1..])
  {
    assert forall i :: 0 <= i < |body| ==> !IsQuote(body[i]);
    if tail == [] {
      TakeUntilWhole(body, IsQuote);
      assert body + tail == body;
    } else {
      TakeUntilUnique(body, tail[0], tail[1..], IsQuote);
      assert body + tail == body + [tail[0]] + tail[1..];
    }
  }

  /** The body of a line comment: everything through the next line feed is
      discarded, or the whole input when there is none. */
  function SkipComment(s: seq<char>): (rest: seq<char>)
    ensures '\n' in s ==>
      |rest| < |s| && s[|s| - |rest| - 1] == '\n' && '\n' !in s[..|s| - |rest| - 1] &&
      rest == s[|s| - |rest|..]
    ensures '\n' !in s ==> rest == []
  {
    var w := TakeUntil(s, IsLineFeed);
    if |w.taken| < |s| then
      assert s[..|w.taken|] == w.taken;
      w.rest
    else
      w.rest
  }

  /** A comment body without a line feed, then a line feed: exactly what
      follows is left. */
  lemma SkipCommentThrough(body: seq<char>, s: seq<char>)
    requires '\n' !in body
    ensures SkipComment(body + ['\n'] + s) == s
  {
    assert forall i :: 0 <= i < |body| ==> !IsLineFeed(body[i]);
    TakeUntilUnique(body, '\n', s, IsLineFeed);
  }
}
