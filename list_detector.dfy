/**
 * The list scanner of `process_text_content` (ocr.py): the pattern
 *   (?:\d+\.\s|\([a-z]\)\s|[\-•]\s)(.*?)(?=(?:\d+\.\s|\([a-z]\)\s|[\-•]\s|$))
 * applied with `re.findall` and DOTALL, written out as a left-to-right scan.
 */
module ListDetector {
  import opened Whitespace

  /** `\d`, restricted to the ASCII digits. */
  predicate IsDigit(c: char)
  {
    '0' <= c <= '9'
  }

  /** `[a-z]`. */
  predicate IsLowerLetter(c: char)
  {
    'a' <= c <= 'z'
  }

  /** The bullet character of `[\-•]`. */
  const Bullet: char := '\U{2022}'

  /** The number of digits starting at position `i` of `s`. */
  function DigitRun(s: string, i: nat): (n: nat)
    requires i <= |s|
    ensures i + n <= |s|
    ensures i + n == |s| || !IsDigit(s[i + n])
    decreases |s| - i
  {
    if i < |s| && IsDigit(s[i]) then 1 + DigitRun(s, i + 1) else 0
  }

  /** Every character of the run is a digit. */
  lemma {:induction false} DigitRunDigits(s: string, i: nat)
    requires i <= |s|
    ensures forall k :: i <= k < i + DigitRun(s, i) ==> IsDigit(s[k])
    decreases |s| - i
  {
    if i < |s| && IsDigit(s[i]) {
      DigitRunDigits(s, i + 1);
    }
  }

  /** The marker token `\d+\.\s|\([a-z]\)\s|[\-•]\s`, matched by the whole of `m`. */
  predicate IsMarker(m: string)
  {
    || (&& |m| >= 3
        && (forall k :: 0 <= k < |m| - 2 ==> IsDigit(m[k]))
        && m[|m| - 2] == '.' && IsSpace(m[|m| - 1]))
    || (|m| == 4 && m[0] == '(' && IsLowerLetter(m[1]) && m[2] == ')' && IsSpace(m[3]))
    || (|m| == 2 && (m[0] == '-' || m[0] == Bullet) && IsSpace(m[1]))
  }

  /** The `n` characters of `s` from position `i` are a marker. */
  predicate MarkerAt(s: string, i: nat, n: nat)
  {
    i + n <= |s| && IsMarker(s[i..i + n])
  }

  /** The length of the marker that starts at position `i` of `s`, or 0 when
      none does. The three alternatives begin with a digit, `(`, and `-` or
      `•`, so at most one of them can apply. */
  function MarkerLen(s: string, i: nat): (n: nat)
    requires i <= |s|
    ensures i + n <= |s|
  {
    if i == |s| then 0
    else if IsDigit(s[i]) then
      var d := DigitRun(s, i);
      if i + d + 1 < |s| && s[i + d] == '.' && IsSpace(s[i + d + 1]) then d + 2 else 0
    else if s[i] == '(' then
      if i + 3 < |s| && IsLowerLetter(s[i + 1]) && s[i + 2] == ')' && IsSpace(s[i + 3]) then 4 else 0
    else if s[i] == '-' || s[i] == Bullet then
      if i + 1 < |s| && IsSpace(s[i + 1]) then 2 else 0
    else 0
  }

  /** No marker starts anywhere in `s`. */
  predicate NoMarker(s: string)
  {
    forall j :: 0 <= j < |s| ==> MarkerLen(s, j) == 0
  }

  /** `$` without MULTILINE: the end of `s`, or just before a final newline. */
  predicate AtEnd(s: string, j: nat)
  {
    j == |s| || (j + 1 == |s| && s[j] == '\n')
  }

  /** Where the lazy `(.*?)` that starts at `j` stops: the first position at
      or after `j` where the lookahead succeeds. */
  function NextStop(s: string, j: nat): (k: nat)
    requires j <= |s|
    ensures j <= k <= |s|
    decreases |s| - j
  {
    if MarkerLen(s, j) > 0 || AtEnd(s, j) then j else NextStop(s, j + 1)
  }

  /** The lazy group stops at the first position where the lookahead holds. */
  lemma {:induction false} NextStopIsFirstStop(s: string, j: nat)
    requires j <= |s|
    ensures var k := NextStop(s, j);
      && (MarkerLen(s, k) > 0 || AtEnd(s, k))
      && forall m :: j <= m < k ==> MarkerLen(s, m) == 0 && !AtEnd(s, m)
    decreases |s| - j
  {
    if !(MarkerLen(s, j) > 0 || AtEnd(s, j)) {
      NextStopIsFirstStop(s, j + 1);
    }
  }

  /** One match of the pattern: the marker occupies `start..bodyStart`, the
      captured group `bodyStart..end`. */
  datatype Match = Match(start: nat, bodyStart: nat, end: nat)

  /** `m` is the match the pattern makes when it is tried at `m.start`. */
  predicate MatchAt(s: string, m: Match)
  {
    && m.start < |s|
    && MarkerLen(s, m.start) > 0
    && m.bodyStart == m.start + MarkerLen(s, m.start)
    && m.end == NextStop(s, m.bodyStart)
  }

  /** `re.finditer` from position `i`: try the pattern at `i`; on a match,
      resume where it ended, otherwise one position later. */
  function Scan(s: string, i: nat): (ms: seq<Match>)
    requires i <= |s|
    ensures forall k :: 0 <= k < |ms| ==> i <= ms[k].start < ms[k].bodyStart <= ms[k].end <= |s|
    decreases |s| - i
  {
    if i == |s| then []
    else if MarkerLen(s, i) > 0 then
      var b := i + MarkerLen(s, i);
      var e := NextStop(s, b);
      [Match(i, b, e)] + Scan(s, e)
    else Scan(s, i + 1)
  }

  /** The captured text of match `m`. */
  function Body(s: string, m: Match): string
    requires m.bodyStart <= m.end <= |s|
  {
    s[m.bodyStart..m.end]
  }

  /** `[m.strip() for m in re.findall(list_pattern, s, re.DOTALL)]`. */
  function ListItems(s: string): (items: seq<string>)
  {
    Items(s, Scan(s, 0))
  }

  /** The strip of each captured text, in order. */
  function Items(s: string, ms: seq<Match>): seq<string>
    requires forall k :: 0 <= k < |ms| ==> ms[k].bodyStart <= ms[k].end <= |s|
  {
    seq(|ms|, k requires 0 <= k < |ms| => Strip(Body(s, ms[k])))
  }

  // ---------------------------------------------------------------------
  // What the scan finds.

  /** Every match found is the one the pattern makes at its start. */
  lemma {:induction false} ScanMatchAt(s: string, i: nat)
    requires i <= |s|
    ensures forall k :: 0 <= k < |Scan(s, i)| ==> MatchAt(s, Scan(s, i)[k])
    decreases |s| - i
  {
    if i < |s| {
      if MarkerLen(s, i) == 0 {
        ScanMatchAt(s, i + 1);
      } else {
        var e := NextStop(s, i + MarkerLen(s, i));
        ScanMatchAt(s, e);
        var ms := Scan(s, i);
        forall k | 0 <= k < |ms| ensures MatchAt(s, ms[k]) {
          if k > 0 {
            assert ms[k] == Scan(s, e)[k - 1];
          }
        }
      }
    }
  }

  /** A match never ends where the lookahead saw `$`: nothing starts there. */
  lemma AtEndNoMarker(s: string, e: nat)
    requires e <= |s| && AtEnd(s, e)
    ensures forall j :: e <= j < |s| ==> MarkerLen(s, j) == 0
  {
  }

  /** The scan finds nothing exactly when no marker starts at or after `i`. */
  lemma {:induction false} ScanEmptyIff(s: string, i: nat)
    requires i <= |s|
    ensures Scan(s, i) == [] <==> forall j :: i <= j < |s| ==> MarkerLen(s, j) == 0
    decreases |s| - i
  {
    if i < |s| && MarkerLen(s, i) == 0 {
      ScanEmptyIff(s, i + 1);
    }
  }

  /** Text before the first marker belongs to no match: the first match
      starts at the first marker at or after `i`. */
  lemma {:induction false} ScanFirst(s: string, i: nat)
    requires i <= |s| && Scan(s, i) != []
    ensures var m := Scan(s, i)[0];
      && MarkerLen(s, m.start) > 0
      && forall j :: i <= j < m.start ==> MarkerLen(s, j) == 0
    decreases |s| - i
  {
    if MarkerLen(s, i) == 0 {
      ScanSkip(s, i);
      ScanFirst(s, i + 1);
      var start := Scan(s, i + 1)[0].start;
      forall j | i <= j < start
        ensures MarkerLen(s, j) == 0
      {
        if j == i {
        }
      }
    } else {
      ScanHead(s, i);
    }
  }

  /** Every marker at or after `i` lies in the marker of some match: a
      marker either starts a match, sits inside the marker text of one
      (the `2. ` in `12. `), or ends the body before it, so it starts the
      next match. */
  lemma {:induction false} ScanCoversMarkers(s: string, i: nat, j: nat)
    requires i <= j < |s| && MarkerLen(s, j) > 0
    ensures exists k :: 0 <= k < |Scan(s, i)| && Scan(s, i)[k].start <= j < Scan(s, i)[k].bodyStart
    decreases |s| - i
  {
    if MarkerLen(s, i) == 0 {
      ScanSkip(s, i);
      ScanCoversMarkers(s, i + 1, j);
    } else {
      var b := i + MarkerLen(s, i);
      var e := NextStop(s, b);
      ScanAtMarker(s, i, b, e);
      var ms := Scan(s, i);
      if j < b {
        assert ms[0].start <= j < ms[0].bodyStart;
      } else {
        NextStopIsFirstStop(s, b);
        assert e <= j;
        ScanCoversMarkers(s, e, j);
        var k :| 0 <= k < |Scan(s, e)| && Scan(s, e)[k].start <= j < Scan(s, e)[k].bodyStart;
        assert ms[k + 1] == Scan(s, e)[k];
      }
    }
  }

  lemma ScanSkip(s: string, i: nat)
    requires i < |s| && MarkerLen(s, i) == 0
    ensures Scan(s, i) == Scan(s, i + 1)
  {
  }

  lemma ScanHead(s: string, i: nat)
    requires i < |s| && MarkerLen(s, i) > 0
    ensures Scan(s, i) != [] && Scan(s, i)[0].start == i
  {
  }

  /** One match, then the scan resumes where it ended: at a marker, or at
      the end of the text with nothing left to find. */
  lemma ScanStep(s: string, i: nat)
    requires i < |s| && MarkerLen(s, i) > 0
    ensures var e := NextStop(s, i + MarkerLen(s, i));
      && Scan(s, i) == [Match(i, i + MarkerLen(s, i), e)] + Scan(s, e)
      && (AtEnd(s, e) ==> Scan(s, e) == [])
      && (!AtEnd(s, e) ==> Scan(s, e) != [] && Scan(s, e)[0].start == e)
  {
    var e := NextStop(s, i + MarkerLen(s, i));
    NextStopIsFirstStop(s, i + MarkerLen(s, i));
    if AtEnd(s, e) {
      AtEndNoMarker(s, e);
      ScanEmptyIff(s, e);
    }
  }

  /** Each match after the first starts where the previous one ended, and
      the last one runs to the end of the text. */
  predicate Chained(s: string, ms: seq<Match>)
  {
    && (forall k :: 0 <= k < |ms| - 1 ==> ms[k + 1].start == ms[k].end)
    && (ms != [] ==> AtEnd(s, ms[|ms| - 1].end))
  }

  lemma ChainedCons(s: string, m: Match, rest: seq<Match>)
    requires Chained(s, rest)
    requires rest == [] ==> AtEnd(s, m.end)
    requires rest != [] ==> rest[0].start == m.end
    ensures Chained(s, [m] + rest)
  {
    var ms := [m] + rest;
    forall k | 0 <= k < |ms| - 1
      ensures ms[k + 1].start == ms[k].end
    {
      if k > 0 {
        assert ms[k] == rest[k - 1] && ms[k + 1] == rest[k];
      }
    }
  }

  lemma {:induction false} ScanChained(s: string, i: nat)
    requires i <= |s|
    ensures Chained(s, Scan(s, i))
    decreases |s| - i
  {
    if i < |s| {
      if MarkerLen(s, i) == 0 {
        ScanChained(s, i + 1);
      } else {
        var e := NextStop(s, i + MarkerLen(s, i));
        ScanStep(s, i);
        ScanChained(s, e);
        ChainedCons(s, Match(i, i + MarkerLen(s, i), e), Scan(s, e));
      }
    }
  }

  /** The digits that start at `i` end at the first non-digit `j`. */
  lemma {:induction false} DigitRunExact(s: string, i: nat, j: nat)
    requires i <= j < |s|
    requires forall k :: i <= k < j ==> IsDigit(s[k])
    requires !IsDigit(s[j])
    ensures DigitRun(s, i) == j - i
    decreases j - i
  {
    if i < j {
      DigitRunExact(s, i + 1, j);
    }
  }

  /** `MarkerLen` agrees with the token pattern: the marker it measures
      matches the pattern, and no other prefix of the text at `i` does
      (so the regex alternatives, tried in any order and with any
      backtracking of `\d+`, find exactly this marker). */
  lemma MarkerLenIsToken(s: string, i: nat)
    requires i <= |s|
    ensures MarkerLen(s, i) > 0 ==> MarkerAt(s, i, MarkerLen(s, i))
    ensures forall n :: MarkerAt(s, i, n) ==> n == MarkerLen(s, i)
  {
    MarkerLenSound(s, i);
    forall n | MarkerAt(s, i, n)
      ensures n == MarkerLen(s, i)
    {
      MarkerLenUnique(s, i, n);
    }
  }

  /** The marker `MarkerLen` measures matches the token pattern. */
  lemma MarkerLenSound(s: string, i: nat)
    requires i <= |s|
    ensures MarkerLen(s, i) > 0 ==> MarkerAt(s, i, MarkerLen(s, i))
  {
    if MarkerLen(s, i) > 0 && IsDigit(s[i]) {
      DigitRunDigits(s, i);
      var n := MarkerLen(s, i);
      var m := s[i..i + n];
      forall k | 0 <= k < |m| - 2 ensures IsDigit(m[k]) {
        assert m[k] == s[i + k];
      }
    }
  }

  /** A prefix of the text at `i` that matches the token pattern is the
      marker `MarkerLen` measures. */
  lemma MarkerLenUnique(s: string, i: nat, n: nat)
    requires MarkerAt(s, i, n)
    ensures n == MarkerLen(s, i)
  {
    var m := s[i..i + n];
    assert m[0] == s[i];
    if |m| >= 3 && (forall k :: 0 <= k < |m| - 2 ==> IsDigit(m[k])) && m[|m| - 2] == '.' && IsSpace(m[|m| - 1]) {
      forall k | i <= k < i + n - 2 ensures IsDigit(s[k]) {
        assert s[k] == m[k - i];
      }
      assert s[i + n - 2] == m[n - 2];
      DigitRunExact(s, i, i + n - 2);
      assert s[i + n - 1] == m[n - 1];
    }
  }

  // ---------------------------------------------------------------------
  // What `ListItems` returns.

  /** One item per match, in order: the captured text of the match, trimmed. */
  lemma ListItemsAreBodies(s: string)
    ensures var ms := Scan(s, 0);
      && |ListItems(s)| == |ms|
      && forall k :: 0 <= k < |ms| ==> ListItems(s)[k] == Strip(s[ms[k].bodyStart..ms[k].end])
  {
  }

  /** A list is found exactly when some marker occurs in the text. */
  lemma ListItemsEmptyIff(s: string)
    ensures ListItems(s) == [] <==> NoMarker(s)
  {
    ScanEmptyIff(s, 0);
  }

  /** An item whose marker is immediately followed by another marker is empty. */
  lemma AdjacentMarkersGiveEmptyItem(s: string, k: nat)
    requires k < |Scan(s, 0)|
    requires var m := Scan(s, 0)[k]; m.bodyStart < |s| && MarkerLen(s, m.bodyStart) > 0
    ensures ListItems(s)[k] == ""
  {
    ScanMatchAt(s, 0);
    var m := Scan(s, 0)[k];
    assert m.end == m.bodyStart;
    assert Body(s, m) == "";
  }

  // ---------------------------------------------------------------------
  // Worked examples.

  /** Text in which no marker and no `$` can begin: no digit, `(`, `-`,
      `•` or newline. */
  predicate Plain(t: string)
  {
    t == [] || (!(IsDigit(t[0]) || t[0] == '(' || t[0] == '-' || t[0] == Bullet || t[0] == '\n') && Plain(t[1..]))
  }

  /** The lazy group runs over plain text without stopping. */
  lemma {:induction false} NextStopOverPlain(s: string, j: nat, e: nat)
    requires j <= e <= |s| && Plain(s[j..e])
    ensures NextStop(s, j) == NextStop(s, e)
    decreases e - j
  {
    if j < e {
      var t := s[j..e];
      assert s[j] == t[0];
      assert s[j + 1..e] == t[1..];
      NextStopOverPlain(s, j + 1, e);
    }
  }

  /** The lazy group stops at once where the lookahead already holds. */
  lemma NextStopAtStop(s: string, e: nat)
    requires e <= |s| && (AtEnd(s, e) || MarkerLen(s, e) > 0)
    ensures NextStop(s, e) == e
  {
  }

  /** The marker pattern at `i` measures exactly the marker found there. */
  lemma MarkerLenOf(s: string, i: nat, n: nat)
    requires MarkerAt(s, i, n)
    ensures MarkerLen(s, i) == n && n > 0
  {
    MarkerLenIsToken(s, i);
  }

  /** The scan at a marker: one match, then the scan from where it ended. */
  lemma ScanAtMarker(s: string, i: nat, b: nat, e: nat)
    requires i < |s| && MarkerLen(s, i) > 0
    requires b == i + MarkerLen(s, i) && e == NextStop(s, b)
    ensures Scan(s, i) == [Match(i, b, e)] + Scan(s, e)
  {
  }

  /** A marker of length `n` at `i`, then plain text up to `e`, where the
      text ends or another marker begins: that text is the next item. */
  lemma ScanOverItem(s: string, i: nat, n: nat, e: nat)
    requires MarkerAt(s, i, n) && i + n <= e <= |s| && Plain(s[i + n..e])
    requires AtEnd(s, e) || MarkerLen(s, e) > 0
    ensures Scan(s, i) == [Match(i, i + n, e)] + Scan(s, e)
  {
    MarkerLenOf(s, i, n);
    NextStopOverPlain(s, i + n, e);
    NextStopAtStop(s, e);
    ScanAtMarker(s, i, i + n, e);
  }

  /** A marker whose text is known starts a match. */
  lemma MarkerHere(s: string, i: nat, m: string)
    requires i + |m| <= |s| && s[i..i + |m|] == m && IsMarker(m)
    ensures MarkerAt(s, i, |m|) && MarkerLen(s, i) == |m|
  {
    assert MarkerAt(s, i, |m|);
    MarkerLenIsToken(s, i);
  }

  /** The text `1. Apple 2. Banana 3. Cherry`. */
  const NumberedExample: string := "1. " + "Apple " + "2. " + "Banana " + "3. " + "Cherry"

  lemma NumberedExampleMarker(i: nat, m: string)
    requires i + |m| <= |NumberedExample| && NumberedExample[i..i + |m|] == m && IsMarker(m)
    ensures MarkerAt(NumberedExample, i, |m|) && MarkerLen(NumberedExample, i) == |m|
  {
    MarkerHere(NumberedExample, i, m);
  }

  lemma NumberedExampleApple()
    ensures NumberedExample[3..9] == "Apple" + " "
  {
    assert NumberedExample[3..9] == "Apple ";
  }

  lemma NumberedExampleApplePlain()
    ensures Plain(NumberedExample[3..9])
  {
    NumberedExampleApple();
    assert "Apple" + " " == "Apple ";
    assert Plain("Apple ");
  }

  lemma NumberedExampleBanana()
    ensures NumberedExample[12..19] == "Banana" + " "
  {
    assert NumberedExample[12..19] == "Banana ";
  }

  lemma NumberedExampleBananaPlain()
    ensures Plain(NumberedExample[12..19])
  {
    NumberedExampleBanana();
    assert "Banana" + " " == "Banana ";
    assert Plain("Banana ");
  }

  lemma NumberedExampleCherry()
    ensures |NumberedExample| == 28
    ensures NumberedExample[22..28] == "Cherry"
  {
    assert NumberedExample[22..28] == "Cherry";
  }

  lemma NumberedExampleCherryPlain()
    ensures Plain(NumberedExample[22..28])
  {
    NumberedExampleCherry();
    assert Plain("Cherry");
  }

  lemma NumberedExampleScanCherry()
    ensures Scan(NumberedExample, 19) == [Match(19, 22, 28)]
  {
    NumberedExampleMarker(19, "3. ");
    NumberedExampleCherry();
    NumberedExampleCherryPlain();
    ScanOverItem(NumberedExample, 19, 3, 28);
  }

  lemma NumberedExampleScanBanana()
    ensures Scan(NumberedExample, 9) == [Match(9, 12, 19)] + Scan(NumberedExample, 19)
  {
    NumberedExampleMarker(9, "2. ");
    NumberedExampleMarker(19, "3. ");
    NumberedExampleBananaPlain();
    ScanOverItem(NumberedExample, 9, 3, 19);
  }

  lemma NumberedExampleScanApple()
    ensures Scan(NumberedExample, 0) == [Match(0, 3, 9)] + Scan(NumberedExample, 9)
  {
    NumberedExampleMarker(0, "1. ");
    NumberedExampleMarker(9, "2. ");
    NumberedExampleApplePlain();
    ScanOverItem(NumberedExample, 0, 3, 9);
  }

  lemma NumberedExampleScan()
    ensures Scan(NumberedExample, 0)
      == [Match(0, 3, 9), Match(9, 12, 19), Match(19, 22, 28)]
  {
    NumberedExampleScanCherry();
    NumberedExampleScanBanana();
    NumberedExampleScanApple();
  }

  lemma NumberedExampleAppleItem()
    ensures Strip(NumberedExample[3..9]) == "Apple"
  {
    NumberedExampleApple();
    StripTrailingSpace("Apple");
  }

  lemma NumberedExampleBananaItem()
    ensures Strip(NumberedExample[12..19]) == "Banana"
  {
    NumberedExampleBanana();
    StripTrailingSpace("Banana");
  }

  lemma NumberedExampleCherryItem()
    ensures Strip(NumberedExample[22..28]) == "Cherry"
  {
    NumberedExampleCherry();
    StripUnchanged("Cherry");
  }

  lemma ExampleNumbered()
    ensures ListItems(NumberedExample) == ["Apple", "Banana", "Cherry"]
  {
    var s := NumberedExample;
    NumberedExampleScan();
    NumberedExampleAppleItem();
    NumberedExampleBananaItem();
    NumberedExampleCherryItem();
    var items := ListItems(s);
    assert items[0] == "Apple" && items[1] == "Banana" && items[2] == "Cherry";
    SeqOfThree(items, "Apple", "Banana", "Cherry");
  }

  lemma SeqOfThree<T>(x: seq<T>, a: T, b: T, c: T)
    requires |x| == 3 && x[0] == a && x[1] == b && x[2] == c
    ensures x == [a, b, c]
  {
  }

  lemma SeqOfTwo<T>(x: seq<T>, a: T, b: T)
    requires |x| == 2 && x[0] == a && x[1] == b
    ensures x == [a, b]
  {
  }

  /** The text `(a) First (b) Second`. */
  const LetteredExample: string := "(a) " + "First " + "(b) " + "Second"

  lemma LetteredExampleFirst()
    ensures LetteredExample[4..10] == "First" + " "
  {
    assert LetteredExample[4..10] == "First ";
  }

  lemma LetteredExampleSecond()
    ensures |LetteredExample| == 20
    ensures LetteredExample[14..20] == "Second"
  {
    assert LetteredExample[14..20] == "Second";
  }

  lemma LetteredExampleMarkers()
    ensures MarkerAt(LetteredExample, 0, 4) && MarkerAt(LetteredExample, 10, 4)
    ensures MarkerLen(LetteredExample, 10) == 4
  {
    assert LetteredExample[0..4] == "(a) ";
    MarkerHere(LetteredExample, 0, "(a) ");
    assert LetteredExample[10..14] == "(b) ";
    MarkerHere(LetteredExample, 10, "(b) ");
  }

  lemma LetteredExampleFirstPlain()
    ensures Plain(LetteredExample[4..10])
  {
    LetteredExampleFirst();
    assert "First" + " " == "First ";
    assert Plain("First ");
  }

  lemma LetteredExampleSecondPlain()
    ensures Plain(LetteredExample[14..20])
  {
    LetteredExampleSecond();
    assert Plain("Second");
  }

  lemma LetteredExampleScan()
    ensures Scan(LetteredExample, 0) == [Match(0, 4, 10), Match(10, 14, 20)]
  {
    var s := LetteredExample;
    LetteredExampleMarkers();
    LetteredExampleFirstPlain();
    LetteredExampleSecondPlain();
    LetteredExampleSecond();
    ScanOverItem(s, 10, 4, 20);
    ScanOverItem(s, 0, 4, 10);
  }

  lemma LetteredExampleItems()
    ensures Strip(LetteredExample[4..10]) == "First"
    ensures Strip(LetteredExample[14..20]) == "Second"
  {
    LetteredExampleFirst();
    StripTrailingSpace("First");
    LetteredExampleSecond();
    StripUnchanged("Second");
  }

  lemma ExampleLettered()
    ensures ListItems(LetteredExample) == ["First", "Second"]
  {
    var s := LetteredExample;
    LetteredExampleScan();
    LetteredExampleItems();
    var items := ListItems(s);
    assert items[0] == "First" && items[1] == "Second";
    SeqOfTwo(items, "First", "Second");
  }
}
