/**
  The text line of an SRT block in utility.py: `text.strip().replace('-->', '->')`.
*/
module TextLine {

  /** The characters Python's `str.strip()` removes (those for which `str.isspace()` holds). */
  predicate IsWhitespace(c: char) {
    || c == ' '
    || '\t' <= c <= '\r'
    || '\U{1c}' <= c <= '\U{1f}'
    || c == '\U{85}' || c == '\U{a0}' || c == '\U{1680}'
    || '\U{2000}' <= c <= '\U{200a}'
    || c == '\U{2028}' || c == '\U{2029}' || c == '\U{202f}' || c == '\U{205f}' || c == '\U{3000}'
  }

  predicate AllWhitespace(s: string) {
    forall i :: 0 <= i < |s| ==> IsWhitespace(s[i])
  }

  /** Neither the first nor the last character is whitespace. */
  predicate Trimmed(s: string) {
    s == [] || (!IsWhitespace(s[0]) && !IsWhitespace(s[|s| - 1]))
  }

  /** Drops the whitespace at the front: what is left is empty or starts with a non-whitespace character. */
  function StripLeft(s: string): (r: string)
    ensures |r| <= |s|
    ensures r == [] || !IsWhitespace(r[0])
  {
    if s != [] && IsWhitespace(s[0]) then StripLeft(s[1..]) else s
  }

  /** Drops the whitespace at the back: what is left is empty or ends with a non-whitespace character, and keeps the first one. */
  function StripRight(s: string): (r: string)
    ensures |r| <= |s|
    ensures r == [] || (!IsWhitespace(r[|r| - 1]) && r[0] == s[0])
  {
    if s != [] && IsWhitespace(s[|s| - 1]) then StripRight(s[..|s| - 1]) else s
  }

  /** `str.strip()`: leading and trailing whitespace removed. */
  function Strip(s: string): (r: string)
    ensures Trimmed(r) && |r| <= |s|
  {
    StripRight(StripLeft(s))
  }

  /** All that `StripLeft` removes is whitespace in front of what it keeps. */
  lemma {:induction false} StripLeftParts(s: string) returns (pre: string)
    ensures s == pre + StripLeft(s) && AllWhitespace(pre)
  {
    if s != [] && IsWhitespace(s[0]) {
      var rest := StripLeftParts(s[1..]);
      pre := [s[0]] + rest;
      assert s == [s[0]] + s[1..];
      assert forall i :: 1 <= i < |pre| ==> pre[i] == rest[i - 1];
    } else {
      pre := [];
    }
  }

  /** All that `StripRight` removes is whitespace behind what it keeps. */
  lemma {:induction false} StripRightParts(s: string) returns (suf: string)
    ensures s == StripRight(s) + suf && AllWhitespace(suf)
  {
    if s != [] && IsWhitespace(s[|s| - 1]) {
      var init := s[..|s| - 1];
      var rest := StripRightParts(init);
      suf := rest + [s[|s| - 1]];
      assert s == init + [s[|s| - 1]];
      assert forall i :: 0 <= i < |rest| ==> suf[i] == rest[i];
    } else {
      suf := [];
    }
  }

  /** What `Strip` removed is whitespace on both sides of what it kept. */
  lemma StripParts(s: string) returns (pre: string, suf: string)
    ensures s == pre + Strip(s) + suf && AllWhitespace(pre) && AllWhitespace(suf)
  {
    var left := StripLeft(s);
    pre := StripLeftParts(s);
    suf := StripRightParts(left);
    var mid := StripRight(left);
    assert mid == Strip(s);
    assert s == pre + (mid + suf);
    assert pre + (mid + suf) == pre + mid + suf;
  }

  lemma {:induction false} StripLeftOf(pre: string, t: string)
    requires AllWhitespace(pre) && (t == [] || !IsWhitespace(t[0]))
    ensures StripLeft(pre + t) == t
  {
    if pre != [] {
      assert (pre + t)[1..] == pre[1..] + t;
      StripLeftOf(pre[1..], t);
    }
  }

  lemma {:induction false} StripRightOf(t: string, suf: string)
    requires AllWhitespace(suf) && (t == [] || !IsWhitespace(t[|t| - 1]))
    ensures StripRight(t + suf) == t
  {
    if suf != [] {
      assert (t + suf)[..|t + suf| - 1] == t + suf[..|suf| - 1];
      StripRightOf(t, suf[..|suf| - 1]);
    }
  }

  /** The decomposition of `StripParts` is unique: stripping removes exactly the outer whitespace. */
  lemma StripUnique(pre: string, mid: string, suf: string)
    requires AllWhitespace(pre) && AllWhitespace(suf) && Trimmed(mid)
    ensures Strip(pre + mid + suf) == mid
  {
    if mid == [] {
      assert pre + mid + suf == (pre + suf) + [];
      StripLeftOf(pre + suf, []);
    } else {
      assert pre + mid + suf == pre + (mid + suf);
      StripLeftOf(pre, mid + suf);
      StripRightOf(mid, suf);
    }
  }

  /** Stripping twice is stripping once. */
  lemma StripIdempotent(s: string)
    ensures Strip(Strip(s)) == Strip(s)
  {
    var r := Strip(s);
    assert [] + r + [] == r;
    StripUnique([], r, []);
  }

  predicate StartsWith(s: string, p: string) {
    |p| <= |s| && s[..|p|] == p
  }

  /** `p` occurs somewhere in `s` (Python's `p in s`). */
  predicate Occurs(p: string, s: string)
    decreases |s|
  {
    StartsWith(s, p) || (|s| > |p| && Occurs(p, s[1..]))
  }

  /**
    `s.replace('-->', '->')`: scanning left to right, every `-->` that
    starts where the scan stands becomes `->` and the scan resumes after it,
    so occurrences are replaced without overlapping.
  */
  function ReplaceArrow(s: string): string
    decreases |s|
  {
    if |s| < 3 then s
    else if s[..3] == "-->" then "->" + ReplaceArrow(s[3..])
    else [s[0]] + ReplaceArrow(s[1..])
  }

  /**
    The find-and-replace reading of `str.replace`: text before the leftmost
    `-->` is kept, that occurrence becomes `->`, and the rest is processed again.
  */
  lemma {:induction false} ReplaceLeftmost(s: string, i: nat)
    requires i + 3 <= |s| && s[i..i + 3] == "-->"
    requires !Occurs("-->", s[..i + 2])
    ensures ReplaceArrow(s) == s[..i] + "->" + ReplaceArrow(s[i + 3..])
  {
    if i == 0 {
      assert s[..3] == "-->";
    } else {
      var t := s[1..];
      EarlierStep(s, i);
      ReplaceLeftmost(t, i - 1);
      ShiftPrefix(s, i, ReplaceArrow(t[i + 2..]));
      assert t[i + 2..] == s[i + 3..];
    }
  }

  /** Putting the first character back in front of a prefix of the rest. */
  lemma ShiftPrefix(s: string, i: nat, x: string)
    requires 1 <= i <= |s|
    ensures [s[0]] + (s[1..][..i - 1] + "->" + x) == s[..i] + "->" + x
  {
    assert [s[0]] + s[1..][..i - 1] == s[..i];
  }

  /** One scan step past a character that does not start the leftmost `-->`. */
  lemma EarlierStep(s: string, i: nat)
    requires 1 <= i && i + 3 <= |s| && s[i..i + 3] == "-->"
    requires !Occurs("-->", s[..i + 2])
    ensures var t := s[1..];
      && ReplaceArrow(s) == [s[0]] + ReplaceArrow(t)
      && t[i - 1..i + 2] == "-->" && !Occurs("-->", t[..i + 1])
  {
    var head := s[..i + 2];
    assert head[..3] == s[..3];
    assert !StartsWith(head, "-->");
    assert s[1..][..i + 1] == head[1..];
    assert s[1..][i - 1..i + 2] == s[i..i + 3];
  }

  /** Text without `-->` is left as it is. */
  lemma {:induction false} ReplaceWithoutArrow(s: string)
    requires !Occurs("-->", s)
    ensures ReplaceArrow(s) == s
  {
    if |s| >= 3 {
      assert !StartsWith(s, "-->");
      ReplaceWithoutArrow(s[1..]);
    }
  }

  /** Text without `>` has no `-->`. */
  lemma {:induction false} NoArrowWithoutGreater(s: string)
    requires forall i :: 0 <= i < |s| ==> s[i] != '>'
    ensures !Occurs("-->", s)
  {
    if |s| >= 3 {
      assert s[2] != '>';
      NoArrowWithoutGreater(s[1..]);
    }
  }

  /** The replacement keeps the first and the last character, and empties nothing. */
  lemma {:induction false} ReplaceEdges(s: string)
    requires s != []
    ensures var r := ReplaceArrow(s); r != [] && r[0] == s[0] && r[|r| - 1] == s[|s| - 1]
  {
    if |s| >= 3 {
      if s[..3] == "-->" {
        if |s| > 3 {
          ReplaceEdges(s[3..]);
        }
      } else {
        ReplaceEdges(s[1..]);
      }
    }
  }

  /** After the replacement, the text starts with `->` exactly when it started with `->` or `-->`. */
  lemma ReplaceStartsWithHead(t: string)
    ensures StartsWith(ReplaceArrow(t), "->") <==> StartsWith(t, "->") || StartsWith(t, "-->")
  {
    if |t| >= 3 && t[..3] != "-->" {
      ReplaceEdges(t[1..]);
      var r := ReplaceArrow(t);
      assert r == [t[0]] + ReplaceArrow(t[1..]);
      assert |r| >= 2 && r[1] == t[1];
    }
  }

  /** A scan step that replaces a `-->` neither creates nor hides a `-->` or a `--->` on the way. */
  lemma ArrowStep(s: string)
    requires |s| >= 3 && s[..3] == "-->"
    ensures Occurs("-->", ReplaceArrow(s)) <==> Occurs("-->", ReplaceArrow(s[3..]))
    ensures Occurs("--->", s) <==> Occurs("--->", s[3..])
  {
    var u := s[3..];
    ArrowStepOutput(s);
    assert s[2] == s[..3][2] == '>';
    assert !StartsWith(s, "--->") by {
      if |s| >= 4 { assert s[..4][2] == '>'; }
    }
    assert !StartsWith(s[1..], "--->") by {
      if |s| >= 5 { assert s[1..][..4][1] == '>'; }
    }
    assert !StartsWith(s[2..], "--->") by {
      if |s| >= 6 { assert s[2..][..4][0] == '>'; }
    }
    var s1, s2 := s[1..], s[2..];
    assert s1[1..] == s2 && s2[1..] == u;
    assert Occurs("--->", s) <==> Occurs("--->", s1);
    assert Occurs("--->", s1) <==> Occurs("--->", s2);
  }

  /** The `->` that replaces a `-->` starts no `-->` of the output. */
  lemma ArrowStepOutput(s: string)
    requires |s| >= 3 && s[..3] == "-->"
    ensures Occurs("-->", ReplaceArrow(s)) <==> Occurs("-->", ReplaceArrow(s[3..]))
  {
    var x := ReplaceArrow(s[3..]);
    var y := ['>'] + x;
    assert ReplaceArrow(s) == ['-'] + y;
    OccursCons('-', y, "-->");
    StartsWithCons('-', y, "-->");
    StartsWithCons('>', x, "->");
    OccursCons('>', x, "-->");
    StartsWithCons('>', x, "-->");
  }

  /** An occurrence in `[c] + x` starts at the head or lies in `x`. */
  lemma OccursCons(c: char, x: string, p: string)
    requires p != []
    ensures Occurs(p, [c] + x) <==> StartsWith([c] + x, p) || Occurs(p, x)
  {
    if |x| + 1 > |p| {
      assert ([c] + x)[1..] == x;
    } else {
      OccursLength(p, x);
    }
  }

  lemma {:induction false} OccursLength(p: string, s: string)
    ensures Occurs(p, s) ==> |p| <= |s|
    decreases |s|
  {
    if |s| > |p| {
      OccursLength(p, s[1..]);
    }
  }

  /** A scan step that keeps a character: a `-->` starts there in the output exactly when a `--->` does in the input. */
  lemma OtherStep(s: string)
    requires |s| >= 3 && s[..3] != "-->"
    ensures Occurs("-->", ReplaceArrow(s)) <==> StartsWith(s, "--->") || Occurs("-->", ReplaceArrow(s[1..]))
    ensures Occurs("--->", s) <==> StartsWith(s, "--->") || Occurs("--->", s[1..])
  {
    var t := s[1..];
    OtherStepHead(s);
    assert ReplaceArrow(s) == [s[0]] + ReplaceArrow(t);
    OccursCons(s[0], ReplaceArrow(t), "-->");
    assert s == [s[0]] + t;
    OccursCons(s[0], t, "--->");
  }

  /** Where the scan keeps a character, the output starts with `-->` exactly when the input starts with `--->`. */
  lemma OtherStepHead(s: string)
    requires |s| >= 3 && s[..3] != "-->"
    ensures StartsWith(ReplaceArrow(s), "-->") <==> StartsWith(s, "--->")
  {
    HeadOfOutput(s);
    HeadOfInput(s);
    ReplaceStartsWithHead(s[1..]);
  }

  lemma HeadOfOutput(s: string)
    requires |s| >= 3 && s[..3] != "-->"
    ensures StartsWith(ReplaceArrow(s), "-->") <==> s[0] == '-' && StartsWith(ReplaceArrow(s[1..]), "->")
  {
    ArrowTails();
    assert ReplaceArrow(s) == [s[0]] + ReplaceArrow(s[1..]);
    StartsWithCons(s[0], ReplaceArrow(s[1..]), "-->");
  }

  lemma HeadOfInput(s: string)
    requires |s| >= 3 && s[..3] != "-->"
    ensures StartsWith(s, "--->") <==> s[0] == '-' && StartsWith(s[1..], "-->")
    ensures !(s[0] == '-' && StartsWith(s[1..], "->"))
  {
    ArrowTails();
    assert s == [s[0]] + s[1..];
    StartsWithCons(s[0], s[1..], "--->");
    StartsWithCons(s[0], s[1..], "-->");
  }

  // A fact about string literals only, kept apart so that the solver meets it on its own.
  lemma ArrowTails()
    ensures "-->"[1..] == "->" && "--->"[1..] == "-->"
  {
  }

  /** A text starts with `p` when its head is `p`'s and its tail starts with the rest of `p`. */
  lemma StartsWithCons(c: char, x: string, p: string)
    requires p != []
    ensures StartsWith([c] + x, p) <==> c == p[0] && StartsWith(x, p[1..])
  {
    if |p| <= |x| + 1 {
      assert ([c] + x)[..|p|] == [c] + x[..|p| - 1];
      assert p == [p[0]] + p[1..];
    }
  }

  /**
    `-->` can survive the replacement: the output contains `-->` exactly
    when the input contains `--->` (so `"--->"` becomes `"-->"`).
  */
  lemma {:induction false} ArrowSurvives(s: string)
    ensures Occurs("-->", ReplaceArrow(s)) <==> Occurs("--->", s)
    decreases |s|
  {
    if |s| < 3 {
      assert !Occurs("-->", s);
      assert !Occurs("--->", s);
    } else if s[..3] == "-->" {
      var u := s[3..];
      ArrowStep(s);
      ArrowSurvives(u);
    } else {
      var t := s[1..];
      OtherStep(s);
      ArrowSurvives(t);
    }
  }

  /** The text line of a block: stripped, then `-->` replaced; it keeps no outer whitespace. */
  function Sanitize(text: string): (r: string)
    ensures Trimmed(r)
  {
    var stripped := Strip(text);
    if stripped == [] then ReplaceArrow(stripped)
    else ReplaceEdges(stripped); ReplaceArrow(stripped)
  }

  /** A text that is trimmed and free of `-->` comes out of its whitespace padding unchanged. */
  lemma SanitizeClean(pre: string, mid: string, suf: string)
    requires AllWhitespace(pre) && AllWhitespace(suf) && Trimmed(mid) && !Occurs("-->", mid)
    ensures Sanitize(pre + mid + suf) == mid
  {
    StripUnique(pre, mid, suf);
    ReplaceWithoutArrow(mid);
  }

  /** A segment text padded with spaces loses them. */
  lemma SanitizeHello()
    ensures Sanitize(" Hello world ") == "Hello world"
  {
    HelloLiteral();
    HelloClean();
    SanitizeClean([' '], "Hello world", [' ']);
  }

  lemma HelloLiteral()
    ensures " Hello world " == [' '] + "Hello world" + [' ']
  {
    assert " Hello world "[1..12] == "Hello world";
  }

  lemma HelloClean()
    ensures Trimmed("Hello world") && AllWhitespace([' ']) && !Occurs("-->", "Hello world")
  {
    var mid := "Hello world";
    assert |mid| == 11 && mid[0] == 'H' && mid[10] == 'd';
    assert !IsWhitespace('H') && !IsWhitespace('d');
    assert forall i :: 0 <= i < |mid| ==> mid[i] != '>';
    NoArrowWithoutGreater(mid);
  }

  /** Text already trimmed is left alone by `Strip`. */
  lemma StripTrimmed(s: string)
    requires Trimmed(s)
    ensures Strip(s) == s
  {
    StripUnique([], s, []);
    assert [] + s + [] == s;
  }

  /**
    A delimiter between two pieces of text is shortened to `->` exactly when it
    is the leftmost `-->` (no `-->` within `before + "--"`, which also rules out
    one that overlaps it from the left) and the rest holds no other `-->`.
  */
  lemma ReplaceDelimiter(before: string, after: string)
    requires !Occurs("-->", before + "--")
    requires !Occurs("-->", after)
    ensures ReplaceArrow(before + "-->" + after) == before + "->" + after
  {
    var s := before + "-->" + after;
    var i := |before|;
    assert s[..i + 2] == before + "--";
    assert s[i..i + 3] == "-->";
    ReplaceLeftmost(s, i);
    assert s[..i] == before && s[i + 3..] == after;
    ReplaceWithoutArrow(after);
  }

  /** Text without `>` cannot complete a `-->` with the first two characters of a delimiter. */
  lemma NoArrowBeforeDelimiter(before: string)
    requires forall i :: 0 <= i < |before| ==> before[i] != '>'
    ensures !Occurs("-->", before + "--")
  {
    var head := before + "--";
    assert forall k :: 0 <= k < |head| ==> head[k] != '>' by {
      forall k | 0 <= k < |head| ensures head[k] != '>' {
        if k >= |before| { assert head[k] == '-'; }
      }
    }
    NoArrowWithoutGreater(head);
  }

  /** The timing-line delimiter inside a text is shortened to `->`, and the padding goes. */
  lemma SanitizeDelimiter(before: string, after: string)
    requires !Occurs("-->", before + "--")
    requires !Occurs("-->", after)
    requires Trimmed(before + "-->" + after)
    ensures Sanitize(before + "-->" + after) == before + "->" + after
  {
    StripTrimmed(before + "-->" + after);
    ReplaceDelimiter(before, after);
  }

  /** A delimiter inside a text padded with single spaces: the padding goes and the delimiter is shortened. */
  lemma SanitizePadded(before: string, after: string)
    requires !Occurs("-->", before + "--")
    requires !Occurs("-->", after)
    requires Trimmed(before + "-->" + after)
    ensures Sanitize([' '] + (before + "-->" + after) + [' ']) == before + "->" + after
  {
    StripUnique([' '], before + "-->" + after, [' ']);
    ReplaceDelimiter(before, after);
  }

  lemma SanitizeArrow()
    ensures Sanitize(" a --> b ") == "a -> b"
  {
    var before, after := "a ", " b";
    assert " a --> b " == [' '] + (before + "-->" + after) + [' '];
    NoArrowWithoutGreater(after);
    NoArrowBeforeDelimiter(before);
    SanitizePadded(before, after);
    ShortArrowLiteral();
  }

  // ShortArrowLiteral and TurnLeftText only state facts about string
  // literals, kept apart so that the solver meets each one on its own.
  lemma ShortArrowLiteral()
    ensures "a " + "->" + " b" == "a -> b"
  {
    assert ("a " + "->" + " b")[2..4] == "->";
  }

  /** A delimiter in the middle of a sentence is shortened. */
  lemma SanitizeTurnLeft()
    ensures Sanitize("turn left --> then right") == "turn left -> then right"
  {
    var before, after := "turn left ", " then right";
    TurnLeftPieces();
    NoArrowBeforeDelimiter(before);
    SanitizeDelimiter(before, after);
    TurnLeftText();
  }

  lemma TurnLeftPieces()
    ensures "turn left --> then right" == "turn left " + "-->" + " then right"
    ensures forall i :: 0 <= i < |"turn left "| ==> "turn left "[i] != '>'
    ensures !Occurs("-->", " then right")
    ensures Trimmed("turn left " + "-->" + " then right")
  {
    TurnLeftSplit();
    TurnLeftBefore();
    TurnLeftAfter();
    TurnLeftEdges();
  }

  lemma TurnLeftSplit()
    ensures "turn left --> then right" == "turn left " + "-->" + " then right"
  {
    var w := "turn left --> then right";
    assert w[..10] == "turn left ";
    assert w[10..13] == "-->";
    assert w[13..] == " then right";
    assert w == w[..10] + w[10..13] + w[13..];
  }

  lemma TurnLeftBefore()
    ensures forall i :: 0 <= i < |"turn left "| ==> "turn left "[i] != '>'
  {
    var before := "turn left ";
    assert forall i :: 0 <= i < |before| ==> before[i] != '>';
  }

  lemma TurnLeftAfter()
    ensures !Occurs("-->", " then right")
  {
    var after := " then right";
    assert forall i :: 0 <= i < |after| ==> after[i] != '>';
    NoArrowWithoutGreater(after);
  }

  lemma TurnLeftEdges()
    ensures Trimmed("turn left " + "-->" + " then right")
  {
    var s := "turn left " + "-->" + " then right";
    assert |s| == 24 && s[0] == 't' && s[23] == 't';
    assert !IsWhitespace('t');
  }

  lemma TurnLeftText()
    ensures "turn left " + "->" + " then right" == "turn left -> then right"
  {
  }

  /** The replacement can create a new `-->`: the output is not free of the delimiter. */
  lemma ReplaceCanLeaveArrow()
    ensures ReplaceArrow("--->") == "-->"
  {
    var s := "--->";
    assert s[..3][2] == '-';
    assert s[1..][..3] == "-->";
  }
}
