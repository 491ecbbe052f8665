/**
 * The JavaScript string built-ins the plugin relies on, as functions on
 * `seq<char>`: `split`/`join`, `split(sep, 1)[0]`, `split(sep).pop()`,
 * `substring(0, lastIndexOf(sep))` and `includes`.
 */
module PathText {

  /** Number of times `c` occurs in `s`. */
  function Occurrences(s: string, c: char): nat
    decreases |s|
  {
    if s == [] then 0 else (if s[0] == c then 1 else 0) + Occurrences(s[1..], c)
  }

  lemma {:induction false} OccurrencesAppend(a: string, b: string, c: char)
    ensures Occurrences(a + b, c) == Occurrences(a, c) + Occurrences(b, c)
    decreases |a|
  {
    if a != [] {
      assert (a + b)[1..] == a[1..] + b;
      OccurrencesAppend(a[1..], b, c);
    } else {
      assert a + b == b;
    }
  }

  lemma {:induction false} NoOccurrences(s: string, c: char)
    requires c !in s
    ensures Occurrences(s, c) == 0
    decreases |s|
  {
    if s != [] {
      NoOccurrences(s[1..], c);
    }
  }

  predicate EndsWith(s: string, suffix: string)
  {
    |suffix| <= |s| && s[|s| - |suffix|..] == suffix
  }

  /** `s.split(sep, 1)[0]`: the text of `s` before its first `sep`, or all of `s`. */
  function BeforeFirst(s: string, sep: char): (r: string)
    ensures r <= s
    ensures sep !in r
    ensures |r| < |s| ==> s[|r|] == sep
    decreases |s|
  {
    if s == [] || s[0] == sep then [] else [s[0]] + BeforeFirst(s[1..], sep)
  }

  /** `s.split(sep).pop()`: the text of `s` after its last `sep`, or all of `s`. */
  function AfterLast(s: string, sep: char): (r: string)
    ensures |r| <= |s| && r == s[|s| - |r|..]
    ensures sep !in r
    ensures |r| < |s| ==> s[|s| - |r| - 1] == sep
    decreases |s|
  {
    if s == [] || s[|s| - 1] == sep then [] else AfterLast(s[..|s| - 1], sep) + [s[|s| - 1]]
  }

  /** `s.substring(0, s.lastIndexOf(sep))`: the text before the last `sep`, or "" when there is none. */
  function BeforeLast(s: string, sep: char): (r: string)
    ensures sep in s ==> |r| < |s| && r == s[..|r|] && s[|r|] == sep && sep !in s[|r| + 1..]
    ensures sep !in s ==> r == []
    decreases |s|
  {
    if s == [] then []
    else if s[|s| - 1] == sep then s[..|s| - 1]
    else BeforeLast(s[..|s| - 1], sep)
  }

  /** `parts.join(sep)`. */
  function Join(parts: seq<string>, sep: char): string
  {
    if |parts| == 0 then ""
    else if |parts| == 1 then parts[0]
    else parts[0] + [sep] + Join(parts[1..], sep)
  }

  /** `s.split(sep)`: one piece more than there are separators (`SplitPieces` says what the pieces are). */
  function Split(s: string, sep: char): (r: seq<string>)
    ensures |r| == Occurrences(s, sep) + 1
    decreases |s|
  {
    var head := BeforeFirst(s, sep);
    if |head| == |s| then
      assert head == s;
      NoOccurrences(s, sep);
      [s]
    else
      var rest := s[|head| + 1..];
      assert s == head + [sep] + rest;
      OccurrencesAppend(head, [sep] + rest, sep);
      OccurrencesAppend([sep], rest, sep);
      assert [sep][1..] == [];
      assert head + ([sep] + rest) == s;
      NoOccurrences(head, sep);
      var tail := Split(rest, sep);
      assert ([head] + tail)[1..] == tail;
      [head] + tail
  }

  /**
   * The pieces of `s.split(sep)` hold no separator, the first is the text
   * before the first separator, and joining them with `sep` gives `s` back.
   */
  lemma {:induction false} SplitPieces(s: string, sep: char)
    ensures var r := Split(s, sep);
      (forall i | 0 <= i < |r| :: sep !in r[i]) && r[0] == BeforeFirst(s, sep) && Join(r, sep) == s
    decreases |s|
  {
    var head := BeforeFirst(s, sep);
    if |head| == |s| {
      assert head == s;
    } else {
      var rest := s[|head| + 1..];
      var tail := Split(rest, sep);
      assert s == head + [sep] + rest;
      assert Split(s, sep) == [head] + tail;
      SplitPieces(rest, sep);
      assert ([head] + tail)[1..] == tail;
    }
  }

  /** `s.includes(t)`: `t` starts at some position of `s`. */
  function Contains(s: string, t: string): bool
    decreases |s|
  {
    t <= s || (s != [] && Contains(s[1..], t))
  }

  lemma {:induction false} ContainsIff(s: string, t: string)
    ensures Contains(s, t) <==> exists i | 0 <= i <= |s| :: t <= s[i..]
    decreases |s|
  {
    assert s[0..] == s;
    if s != [] {
      ContainsIff(s[1..], t);
      assert forall i | 1 <= i <= |s| :: s[1..][i - 1..] == s[i..];
    }
  }

  /** Unfolds `Split` once when `s` holds a separator. */
  lemma SplitStep(s: string, sep: char)
    requires sep in s
    ensures var head := BeforeFirst(s, sep);
      |head| < |s| && s == head + [sep] + s[|head| + 1..] &&
      Split(s, sep) == [head] + Split(s[|head| + 1..], sep)
  {
  }

  /**
   * Joining the first `m` pieces of `s.split(sep)` gives a prefix of `s`
   * that is followed by a separator (unless it is all of `s`) and leaves
   * exactly one separator behind for each piece left out.
   */
  lemma {:induction false} JoinOfLeadingPieces(s: string, sep: char, m: nat)
    requires 1 <= m <= |Split(s, sep)|
    ensures LeadingPiecesFacts(s, sep, m)
    decreases |s|
  {
    if sep !in s {
      LeadingPiecesWithout(s, sep, m);
    } else if m == 1 {
      LeadingPieceFirst(s, sep);
    } else {
      var rest := AfterFirst(s, sep);
      AfterFirstPieces(s, sep);
      JoinOfLeadingPieces(rest, sep, m - 1);
      LeadingPiecesLater(s, sep, m);
    }
  }

  /** The text after the first separator. */
  function AfterFirst(s: string, sep: char): string
    requires sep in s
  {
    SplitStep(s, sep);
    s[|BeforeFirst(s, sep)| + 1..]
  }

  lemma AfterFirstPieces(s: string, sep: char)
    requires sep in s
    ensures |AfterFirst(s, sep)| < |s| && |Split(s, sep)| == |Split(AfterFirst(s, sep), sep)| + 1
  {
    SplitStep(s, sep);
  }

  /** The prefix joined from the first `m` pieces, and what it leaves behind. */
  predicate LeadingPiecesFacts(s: string, sep: char, m: nat)
    requires 1 <= m <= |Split(s, sep)|
  {
    var a := Join(Split(s, sep)[..m], sep);
    && a <= s
    && Occurrences(s[|a|..], sep) == |Split(s, sep)| - m
    && (m < |Split(s, sep)| ==> s[|a|] == sep)
  }

  lemma LeadingPiecesWithout(s: string, sep: char, m: nat)
    requires sep !in s && 1 <= m <= |Split(s, sep)|
    ensures LeadingPiecesFacts(s, sep, m)
  {
    NoOccurrences(s, sep);
    assert Split(s, sep)[..m] == [s];
    assert s[|s|..] == [];
  }

  lemma LeadingPieceFirst(s: string, sep: char)
    requires sep in s
    ensures LeadingPiecesFacts(s, sep, 1)
  {
    SplitStep(s, sep);
    var head := BeforeFirst(s, sep);
    var rest := s[|head| + 1..];
    FirstPiece(s, sep, head, rest, |Split(rest, sep)|);
    assert Split(s, sep)[..1] == [head];
  }

  lemma LeadingPiecesLater(s: string, sep: char, m: nat)
    requires sep in s && 2 <= m <= |Split(s, sep)|
    requires 1 <= m - 1 <= |Split(AfterFirst(s, sep), sep)| && LeadingPiecesFacts(AfterFirst(s, sep), sep, m - 1)
    ensures LeadingPiecesFacts(s, sep, m)
  {
    SplitStep(s, sep);
    var head := BeforeFirst(s, sep);
    var rest := s[|head| + 1..];
    var tail := Split(rest, sep);
    JoinStep(head, tail, sep, m);
    LaterPieces(s, sep, head, rest, Join(tail[..m - 1], sep));
  }

  lemma FirstPiece(s: string, sep: char, head: string, rest: string, n: nat)
    requires s == head + [sep] + rest && Occurrences(rest, sep) + 1 == n
    ensures head <= s && s[|head|] == sep && Occurrences(s[|head|..], sep) == n
  {
    assert s[|head|..] == [sep] + rest;
    OccurrencesAppend([sep], rest, sep);
    assert [sep][1..] == [];
  }

  lemma LaterPieces(s: string, sep: char, head: string, rest: string, a': string)
    requires s == head + [sep] + rest && a' <= rest
    ensures head + [sep] + a' <= s && s[|head + [sep] + a'|..] == rest[|a'|..]
  {
  }

  lemma JoinStep(head: string, tail: seq<string>, sep: char, m: nat)
    requires 2 <= m <= |tail| + 1
    ensures Join(([head] + tail)[..m], sep) == head + [sep] + Join(tail[..m - 1], sep)
  {
    assert ([head] + tail)[..m] == [head] + tail[..m - 1];
    assert ([head] + tail[..m - 1])[1..] == tail[..m - 1];
  }

  /** `split` on a text with a separator after a separator-free first piece. */
  lemma SplitAtFirst(a: string, b: string, sep: char)
    requires sep !in a
    ensures Split(a + [sep] + b, sep) == [a] + Split(b, sep)
  {
    var s := a + [sep] + b;
    var head := BeforeFirst(s, sep);
    assert s[|a|] == sep;
    assert head == a;
    assert s[|a| + 1..] == b;
  }

  /** `split` on a text without separators gives the text alone. */
  lemma SplitWithout(a: string, sep: char)
    requires sep !in a
    ensures Split(a, sep) == [a]
  {
  }

  /** The text before the first separator is the separator-free text in front of it. */
  lemma {:induction false} BeforeFirstAt(x: string, y: string, sep: char)
    requires sep !in x
    ensures BeforeFirst(x + [sep] + y, sep) == x
    decreases |x|
  {
    if x != [] {
      assert (x + [sep] + y)[1..] == x[1..] + [sep] + y;
      BeforeFirstAt(x[1..], y, sep);
    }
  }

  /** Text without a separator appended to `s` lengthens the last piece of `s` by that text. */
  lemma {:induction false} AfterLastAppend(s: string, e: string, sep: char)
    requires sep !in e
    ensures AfterLast(s + e, sep) == AfterLast(s, sep) + e
    decreases |e|
  {
    if e == [] {
      assert s + e == s;
    } else {
      AfterLastAppend(s, e[..|e| - 1], sep);
      SnocParts(s, e);
      AfterLastStep(s + e[..|e| - 1], e[|e| - 1], sep);
      SnocJoin(AfterLast(s, sep), e);
    }
  }

  /** The text after the last separator is the separator-free text behind it. */
  lemma AfterLastAt(x: string, e: string, sep: char)
    requires sep !in e
    ensures AfterLast(x + [sep] + e, sep) == e
  {
    AfterLastAppend(x + [sep], e, sep);
  }

  lemma AfterLastStep(s: string, c: char, sep: char)
    requires c != sep
    ensures AfterLast(s + [c], sep) == AfterLast(s, sep) + [c]
  {
    assert (s + [c])[..|s|] == s;
  }

  lemma SnocParts(s: string, e: string)
    requires e != []
    ensures e == e[..|e| - 1] + [e[|e| - 1]]
    ensures s + e == (s + e[..|e| - 1]) + [e[|e| - 1]]
  {
  }

  lemma SnocJoin(x: string, e: string)
    requires e != []
    ensures x + e[..|e| - 1] + [e[|e| - 1]] == x + e
  {
    assert e == e[..|e| - 1] + [e[|e| - 1]];
  }

  // ----- The split in the example of the resolver's documentation -----
  // `ImportsFooBarText` and `ImportsFooBarPieces` establish the literal facts,
  // one per lemma, that `FooBar` and `ImportsFooBar` combine.

  lemma ImportsFooBarText()
    ensures "imports/foo/bar" == "imports" + ['/'] + "foo/bar"
    ensures "foo/bar" == "foo" + ['/'] + "bar"
  {
  }

  lemma ImportsFooBarPieces()
    ensures '/' !in "imports" && '/' !in "foo" && '/' !in "bar"
  {
  }

  /** `split` on `x` `sep` `y` once the pieces of `y` are known. */
  lemma SplitCons(x: string, y: string, sep: char, pieces: seq<string>)
    requires sep !in x && Split(y, sep) == pieces
    ensures Split(x + [sep] + y, sep) == [x] + pieces
  {
    SplitAtFirst(x, y, sep);
  }

  lemma FooBar()
    ensures Split("foo/bar", '/') == ["foo", "bar"]
  {
    ImportsFooBarText();
    ImportsFooBarPieces();
    SplitWithout("bar", '/');
    SplitCons("foo", "bar", '/', ["bar"]);
  }

  /** `'imports/foo/bar'.split('/')`. */
  lemma ImportsFooBar()
    ensures Split("imports/foo/bar", '/') == ["imports", "foo", "bar"]
  {
    ImportsFooBarText();
    ImportsFooBarPieces();
    FooBar();
    SplitCons("imports", "foo/bar", '/', ["foo", "bar"]);
  }
}
