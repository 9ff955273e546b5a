/**
 * Whitespace handling shared by formulas and free text (ocr.py):
 * `re.sub(r'\s+', ' ', s).strip()` and the bare `str.strip()`.
 *
 * Python's `\s` on `str` patterns and `str.isspace` use the same table,
 * given here in `IsSpace`.
 */
module Whitespace {

  /** Python's whitespace table: the ASCII controls TAB..CR, the separators
      0x1C..0x1F, SPACE, and the Unicode spaces and line separators. */
  predicate IsSpace(c: char)
  {
    || ('\t' <= c <= '\r')
    || ('\U{1C}' <= c <= '\U{1F}')
    || c == ' '
    || c == '\U{85}'
    || c == '\U{A0}'
    || c == '\U{1680}'
    || ('\U{2000}' <= c <= '\U{200A}')
    || c == '\U{2028}'
    || c == '\U{2029}'
    || c == '\U{202F}'
    || c == '\U{205F}'
    || c == '\U{3000}'
  }

  /** No character of `s` is whitespace. */
  predicate NoSpace(s: string)
  {
    forall i :: 0 <= i < |s| ==> !IsSpace(s[i])
  }

  /** Every character of `s` is whitespace. */
  predicate AllSpace(s: string)
  {
    forall i :: 0 <= i < |s| ==> IsSpace(s[i])
  }

  /** The number of whitespace characters `s` starts with. */
  function LeadingSpaces(s: string): (n: nat)
    ensures n <= |s|
    ensures n == |s| || !IsSpace(s[n])
  {
    if s != [] && IsSpace(s[0]) then 1 + LeadingSpaces(s[1..]) else 0
  }

  /** The number of whitespace characters `s` ends with. */
  function TrailingSpaces(s: string): (n: nat)
    ensures n <= |s|
    ensures n == |s| || !IsSpace(s[|s| - 1 - n])
  {
    if s != [] && IsSpace(s[|s| - 1]) then 1 + TrailingSpaces(s[..|s| - 1]) else 0
  }

  /** `s.lstrip()`. */
  function TrimLeft(s: string): string
  {
    s[LeadingSpaces(s)..]
  }

  /** `s.rstrip()`. */
  function TrimRight(s: string): string
  {
    s[..|s| - TrailingSpaces(s)]
  }

  /** `s.strip()`. */
  function Strip(s: string): string
  {
    TrimRight(TrimLeft(s))
  }

  /** `re.sub(r'\s+', ' ', s)`: every maximal run of whitespace becomes one space. */
  function Collapse(s: string): string
    decreases |s|
  {
    if s == [] then []
    else if IsSpace(s[0]) then [' '] + Collapse(TrimLeft(s[1..]))
    else [s[0]] + Collapse(s[1..])
  }

  /** `clean_latex_formula`, and the first step of `process_text_content`. */
  function Clean(s: string): string
  {
    Strip(Collapse(s))
  }

  // ---------------------------------------------------------------------
  // Reference definition: Python's `' '.join(s.split())`.

  /** A word of `str.split()`: non-empty and free of whitespace. */
  predicate IsWord(w: string)
  {
    w != [] && NoSpace(w)
  }

  predicate AllWords(ws: seq<string>)
  {
    forall k :: 0 <= k < |ws| ==> IsWord(ws[k])
  }

  /** The length of the longest prefix of `s` free of whitespace. */
  function WordLen(s: string): (n: nat)
    ensures n <= |s|
    ensures n == |s| || IsSpace(s[n])
  {
    if s == [] || IsSpace(s[0]) then 0 else 1 + WordLen(s[1..])
  }

  /** The longest prefix of `s` free of whitespace. */
  function Word(s: string): string
  {
    s[..WordLen(s)]
  }

  /** `s.split()`: the maximal whitespace-free pieces of `s`, in order. */
  function Words(s: string): seq<string>
    decreases |s|
  {
    var t := TrimLeft(s);
    if t == [] then []
    else
      var w := Word(t);
      assert |w| > 0;
      [w] + Words(t[|w|..])
  }

  /** `' '.join(ws)`. */
  function Join(ws: seq<string>): string
  {
    if |ws| == 0 then []
    else if |ws| == 1 then ws[0]
    else ws[0] + " " + Join(ws[1..])
  }

  /** The output shape of `Clean`: no whitespace at either end, every
      whitespace character a plain space, never two in a row. */
  predicate Normalized(t: string)
  {
    && (t == [] || (!IsSpace(t[0]) && !IsSpace(t[|t| - 1])))
    && (forall i :: 0 <= i < |t| && IsSpace(t[i]) ==> t[i] == ' ')
    && (forall i :: 0 <= i < |t| - 1 && IsSpace(t[i]) ==> !IsSpace(t[i + 1]))
  }


  // ---------------------------------------------------------------------
  // Lemmas about trimming and words.

  /** What `lstrip` removes is whitespace. */
  lemma {:induction false} LeadingSpacesAreSpace(s: string)
    ensures AllSpace(s[..LeadingSpaces(s)])
  {
    if s != [] && IsSpace(s[0]) {
      LeadingSpacesAreSpace(s[1..]);
      var n := LeadingSpaces(s[1..]);
      forall i | 0 <= i < n + 1 ensures IsSpace(s[i]) {
        if i > 0 { assert s[..n + 1][i] == s[1..][..n][i - 1]; }
      }
    }
  }

  /** What `rstrip` removes is whitespace. */
  lemma {:induction false} TrailingSpacesAreSpace(s: string)
    ensures AllSpace(s[|s| - TrailingSpaces(s)..])
  {
    if s != [] && IsSpace(s[|s| - 1]) {
      var p := s[..|s| - 1];
      TrailingSpacesAreSpace(p);
      var n := TrailingSpaces(p);
      var t := s[|s| - (n + 1)..];
      forall i | 0 <= i < n + 1 ensures IsSpace(t[i]) {
        if i < n { assert t[i] == p[|p| - n..][i]; }
      }
    }
  }

  /** The first word holds no whitespace. */
  lemma {:induction false} WordNoSpace(s: string)
    ensures NoSpace(Word(s))
  {
    if s != [] && !IsSpace(s[0]) {
      WordNoSpace(s[1..]);
      var n := WordLen(s[1..]);
      var w := s[..n + 1];
      forall i | 0 <= i < |w| ensures !IsSpace(w[i]) {
        if i > 0 { assert w[i] == s[1..][..n][i - 1]; }
      }
    }
  }

  lemma TrimLeftOfWordStart(t: string)
    requires t == [] || !IsSpace(t[0])
    ensures TrimLeft(t) == t
  {
  }

  lemma TrimLeftOfSpaced(t: string)
    requires t != [] && IsSpace(t[0])
    ensures TrimLeft(t) == TrimLeft(t[1..])
  {
    assert t[1..][LeadingSpaces(t[1..])..] == t[1 + LeadingSpaces(t[1..])..];
  }

  lemma {:induction false} TrimLeftAllSpace(t: string)
    requires AllSpace(t)
    ensures TrimLeft(t) == []
  {
    if t != [] {
      TrimLeftAllSpace(t[1..]);
      TrimLeftOfSpaced(t);
    }
  }

  lemma {:induction false} LeadingSpacesAppend(t: string, x: string)
    requires LeadingSpaces(t) < |t|
    ensures LeadingSpaces(t + x) == LeadingSpaces(t)
  {
    if IsSpace(t[0]) {
      assert (t + x)[1..] == t[1..] + x;
      LeadingSpacesAppend(t[1..], x);
    }
  }

  lemma TrimLeftAppend(t: string, x: string)
    requires TrimLeft(t) != []
    ensures TrimLeft(t + x) == TrimLeft(t) + x
  {
    LeadingSpacesAppend(t, x);
  }

  lemma {:induction false} WordLenConcat(w: string, x: string)
    requires NoSpace(w)
    requires x == [] || IsSpace(x[0])
    ensures WordLen(w + x) == |w|
  {
    if w != [] {
      assert (w + x)[1..] == w[1..] + x;
      WordLenConcat(w[1..], x);
    } else {
      assert w + x == x;
    }
  }

  lemma WordOfConcat(w: string, x: string)
    requires NoSpace(w)
    requires x == [] || IsSpace(x[0])
    ensures Word(w + x) == w
  {
    WordLenConcat(w, x);
  }

  lemma {:induction false} WordLenAppend(u: string, x: string)
    requires x == [] || IsSpace(x[0])
    ensures WordLen(u + x) == WordLen(u)
  {
    if u == [] {
      assert u + x == x;
    } else if !IsSpace(u[0]) {
      assert (u + x)[1..] == u[1..] + x;
      WordLenAppend(u[1..], x);
    }
  }

  lemma {:induction false} CollapseWord(w: string, x: string)
    requires NoSpace(w)
    ensures Collapse(w + x) == w + Collapse(x)
  {
    if w != [] {
      assert (w + x)[1..] == w[1..] + x;
      CollapseWord(w[1..], x);
    } else {
      assert w + x == x;
    }
  }

  /** Every piece of `s.split()` is a word. */
  lemma {:induction false} WordsAreWords(s: string)
    ensures AllWords(Words(s))
    decreases |s|
  {
    var t := TrimLeft(s);
    if t != [] {
      var w := Word(t);
      WordNoSpace(t);
      WordsAreWords(t[|w|..]);
    }
  }

  /** One step of `s.split()` on a string that starts with a word. */
  lemma WordsStep(t: string)
    requires t != [] && !IsSpace(t[0])
    ensures Words(t) == [Word(t)] + Words(t[|Word(t)|..])
  {
    TrimLeftOfWordStart(t);
  }

  /** `s.split()` skips a leading run of whitespace. */
  lemma WordsSkipSpace(t: string)
    requires t != [] && IsSpace(t[0])
    ensures Words(t) == Words(TrimLeft(t[1..]))
  {
    var u := TrimLeft(t[1..]);
    TrimLeftOfSpaced(t);
    TrimLeftOfWordStart(u);
  }

  /** `s.split()` ignores leading whitespace. */
  lemma WordsTrimLeft(s: string)
    ensures Words(TrimLeft(s)) == Words(s)
  {
    TrimLeftOfWordStart(TrimLeft(s));
  }

  /** A string of whitespace only has no words, whatever whitespace follows. */
  lemma BlankAppend(t: string, sp: string)
    requires TrimLeft(t) == [] && AllSpace(sp)
    ensures TrimLeft(t + sp) == []
  {
    LeadingSpacesAreSpace(t);
    assert t[..LeadingSpaces(t)] == t;
    assert AllSpace(t + sp);
    TrimLeftAllSpace(t + sp);
  }

  /** `s.split()` ignores whitespace appended at the end. */
  lemma {:induction false} WordsAppendSpaces(t: string, sp: string)
    requires AllSpace(sp)
    ensures Words(t + sp) == Words(t)
    decreases |t|
  {
    var u := TrimLeft(t);
    if u == [] {
      BlankAppend(t, sp);
    } else {
      TrimLeftAppend(t, sp);
      var w := Word(u);
      var r := u[|w|..];
      WordLenAppend(u, sp);
      SliceAppend(u, |w|, sp);
      WordsAt(t, u, w, r);
      WordsAt(t + sp, u + sp, w, r + sp);
      WordsAppendSpaces(r, sp);
    }
  }

  lemma SplitAt(t: string, k: nat)
    requires k <= |t|
    ensures t == t[..k] + t[k..]
  {
  }

  lemma SliceAppend(u: string, k: nat, x: string)
    requires k <= |u|
    ensures (u + x)[..k] == u[..k] && (u + x)[k..] == u[k..] + x
  {
  }

  /** One step of `s.split()`, named by its parts. */
  lemma WordsAt(s: string, u: string, w: string, r: string)
    requires u == TrimLeft(s) && u != [] && w == Word(u) && r == u[|w|..]
    ensures Words(s) == [w] + Words(r)
  {
  }

  /** `s.split()` ignores trailing whitespace. */
  lemma WordsTrimRight(x: string)
    ensures Words(TrimRight(x)) == Words(x)
  {
    var r := TrimRight(x);
    var tail := x[|r|..];
    assert x == r + tail;
    TrailingSpacesAreSpace(x);
    assert AllSpace(tail);
    WordsAppendSpaces(r, tail);
  }

  lemma JoinCons(w: string, ws: seq<string>)
    requires ws != []
    ensures Join([w] + ws) == w + " " + Join(ws)
  {
    assert ([w] + ws)[1..] == ws;
  }

  /** A joined list of words is empty exactly when the list is, and it
      starts and ends with a word character. */
  lemma {:induction false} JoinEnds(ws: seq<string>)
    requires AllWords(ws)
    ensures Join(ws) == [] <==> ws == []
    ensures ws != [] ==> !IsSpace(Join(ws)[0]) && !IsSpace(Join(ws)[|Join(ws)| - 1])
  {
    if |ws| >= 2 {
      JoinEnds(ws[1..]);
      var r := Join(ws[1..]);
      assert Join(ws) == ws[0] + " " + r;
      assert Join(ws)[|Join(ws)| - 1] == r[|r| - 1];
      assert Join(ws)[0] == ws[0][0];
    }
  }

  /** Splitting a word, a space and a string that starts with a word. */
  lemma WordsOfSpaced(w: string, r: string)
    requires IsWord(w) && r != [] && !IsSpace(r[0])
    ensures Words(w + " " + r) == [w] + Words(r)
  {
    var j := w + " " + r;
    assert j == w + (" " + r);
    WordOfConcat(w, " " + r);
    WordsStep(j);
    assert j[|w|..] == " " + r;
    WordsSkipSpace(" " + r);
    assert (" " + r)[1..] == r;
    TrimLeftOfWordStart(r);
  }

  /** Round trip: splitting a joined list of words gives the words back. */
  lemma {:induction false} WordsOfJoin(ws: seq<string>)
    requires AllWords(ws)
    ensures Words(Join(ws)) == ws
  {
    if |ws| == 1 {
      var w := ws[0];
      WordOfConcat(w, []);
      assert w + [] == w;
      WordsStep(w);
      assert w[|w|..] == [];
    } else if |ws| >= 2 {
      JoinEnds(ws[1..]);
      WordsOfSpaced(ws[0], Join(ws[1..]));
      WordsOfJoin(ws[1..]);
      assert ws == [ws[0]] + ws[1..];
    }
  }

  /** The character that `Collapse` leaves after the last word: one space
      exactly when `t` ends in whitespace. */
  function Trailer(t: string): string
  {
    if t != [] && IsSpace(t[|t| - 1]) then " " else ""
  }

  lemma TrailerOfSuffix(t: string, u: string)
    requires u != [] && |u| <= |t| && u == t[|t| - |u|..]
    ensures Trailer(t) == Trailer(u)
  {
    assert t[|t| - 1] == u[|u| - 1];
  }

  lemma TrimmedSuffix(t: string, w: string, rest: string)
    requires t == w + rest && rest != []
    ensures var u := TrimLeft(rest[1..]); |u| <= |t| && u == t[|t| - |u|..]
  {
  }

  lemma TrimmedToNothing(rest: string)
    requires rest != [] && IsSpace(rest[0]) && TrimLeft(rest[1..]) == []
    ensures IsSpace(rest[|rest| - 1])
  {
    if |rest| > 1 {
      LeadingSpacesAreSpace(rest[1..]);
      assert rest[|rest| - 1] == rest[1..][..LeadingSpaces(rest[1..])][|rest| - 2];
    }
  }

  lemma Reassociate(w: string, x: string, y: string)
    ensures w + (" " + (x + y)) == (w + " " + x) + y
  {
  }

  /** What `Trailer` sees of a string that starts with a word `w`. */
  lemma TrailerStep(t: string)
    requires t != [] && !IsSpace(t[0])
    ensures var w := Word(t); var rest := t[|w|..];
      && (rest == [] ==> Trailer(t) == "")
      && (rest != [] ==>
            var u := TrimLeft(rest[1..]);
            && |u| < |t|
            && Trailer(t) == (if u == [] then " " else Trailer(u)))
  {
    var w := Word(t);
    var rest := t[|w|..];
    assert t == w + rest;
    WordNoSpace(t);
    if rest == [] {
      TrailerOfSuffix(t, w[|w| - 1..]);
    } else {
      TrimmedSuffix(t, w, rest);
      var u := TrimLeft(rest[1..]);
      if u == [] {
        TrimmedToNothing(rest);
        TrailerOfSuffix(t, rest);
      } else {
        TrailerOfSuffix(t, u);
      }
    }
  }

  /** One step of `Collapse` and of `s.split()` on a string that starts
      with a word `w`: what follows `w` is either nothing, or a space run
      and then the rest `u`. */
  lemma CollapseStep(t: string)
    requires t != [] && !IsSpace(t[0])
    ensures var w := Word(t); var rest := t[|w|..];
      && (rest == [] ==> Collapse(t) == w && Words(t) == [w] && Trailer(t) == "")
      && (rest != [] ==>
            var u := TrimLeft(rest[1..]);
            && |u| < |t| && (u == [] || !IsSpace(u[0]))
            && Collapse(t) == w + (" " + Collapse(u))
            && Words(t) == [w] + Words(u)
            && Trailer(t) == (if u == [] then " " else Trailer(u)))
  {
    var w := Word(t);
    var rest := t[|w|..];
    TrailerStep(t);
    SplitAt(t, |w|);
    WordNoSpace(t);
    CollapseWord(w, rest);
    WordsStep(t);
    if rest == [] {
      assert Words(rest) == [];
    } else {
      WordsSkipSpace(rest);
    }
  }

  lemma {:induction false} CollapseShape(t: string)
    requires t == [] || !IsSpace(t[0])
    ensures Words(t) == [] <==> t == []
    ensures Collapse(t) == Join(Words(t)) + Trailer(t)
    decreases |t|
  {
    if t != [] {
      CollapseStep(t);
      var w := Word(t);
      var rest := t[|w|..];
      if rest != [] {
        var u := TrimLeft(rest[1..]);
        if u == [] {
          assert Words(u) == [];
          assert Collapse(u) == [];
          assert Words(t) == [w];
        } else {
          CollapseShape(u);
          JoinCons(w, Words(u));
          Reassociate(w, Join(Words(u)), Trailer(u));
        }
      }
    }
  }

  lemma StripJoined(ws: seq<string>, tr: string)
    requires AllWords(ws)
    requires tr == "" || tr == " "
    requires ws == [] ==> tr == ""
    ensures Strip(Join(ws) + tr) == Join(ws)
    ensures Strip(" " + (Join(ws) + tr)) == Join(ws)
  {
    var j := Join(ws);
    JoinEnds(ws);
    StripLeadingSpace(j + tr);
    if ws == [] {
      assert j + tr == [];
    } else if tr == " " {
      StripTrailingSpace(j);
    } else {
      assert j + tr == j;
      StripUnchanged(j);
    }
  }

  /** `strip` ignores one leading space. */
  lemma StripLeadingSpace(x: string)
    ensures Strip(" " + x) == Strip(x)
  {
    TrimLeftOfSpaced(" " + x);
    assert (" " + x)[1..] == x;
  }

  /** `strip` leaves alone a string with no whitespace at either end. */
  lemma StripUnchanged(t: string)
    requires |t| > 0 ==> !IsSpace(t[0]) && !IsSpace(t[|t| - 1])
    ensures Strip(t) == t
  {
  }

  /** `strip` removes one trailing space. */
  lemma StripTrailingSpace(t: string)
    requires t != [] && !IsSpace(t[0]) && !IsSpace(t[|t| - 1])
    ensures Strip(t + " ") == t
  {
    var u := t + " ";
    assert u[0] == t[0];
    assert LeadingSpaces(u) == 0;
    assert TrimLeft(u) == u;
    assert u[..|u| - 1] == t;
    assert TrailingSpaces(t) == 0;
    assert TrailingSpaces(u) == 1;
  }

  // ---------------------------------------------------------------------
  // What normalisation guarantees.

  /** On a string that does not start with whitespace, and on the same
      string after one space, `Strip(Collapse(_))` joins the words. */
  lemma CleanOfWordStart(t: string)
    requires t == [] || !IsSpace(t[0])
    ensures Strip(Collapse(t)) == Join(Words(t))
    ensures Strip(" " + Collapse(t)) == Join(Words(t))
  {
    CollapseShape(t);
    WordsAreWords(t);
    StripJoined(Words(t), Trailer(t));
  }

  /** `re.sub(r'\s+', ' ', s).strip()` equals `' '.join(s.split())`. */
  lemma CleanIsJoinedWords(s: string)
    ensures Clean(s) == Join(Words(s))
  {
    if s != [] && IsSpace(s[0]) {
      var u := TrimLeft(s[1..]);
      assert Collapse(s) == " " + Collapse(u);
      WordsSkipSpace(s);
      CleanOfWordStart(u);
    } else {
      CleanOfWordStart(s);
    }
  }

  /** Normalising twice is normalising once. */
  lemma CleanIdempotent(s: string)
    ensures Clean(Clean(s)) == Clean(s)
  {
    CleanIsJoinedWords(s);
    CleanIsJoinedWords(Clean(s));
    WordsAreWords(s);
    WordsOfJoin(Words(s));
  }

  lemma {:induction false} JoinNormalized(ws: seq<string>)
    requires AllWords(ws)
    ensures Normalized(Join(ws))
  {
    JoinEnds(ws);
    if |ws| >= 2 {
      var w := ws[0];
      var r := Join(ws[1..]);
      JoinEnds(ws[1..]);
      JoinNormalized(ws[1..]);
      var j := Join(ws);
      assert j == w + " " + r;
      forall i | 0 <= i < |j| && IsSpace(j[i])
        ensures j[i] == ' '
      {
        if i > |w| {
          assert j[i] == r[i - |w| - 1];
        }
      }
      forall i | 0 <= i < |j| - 1 && IsSpace(j[i])
        ensures !IsSpace(j[i + 1])
      {
        if i > |w| {
          assert j[i] == r[i - |w| - 1];
          assert j[i + 1] == r[i - |w|];
        } else {
          assert i == |w|;
          assert j[i + 1] == r[0];
        }
      }
    }
  }

  /** What `Clean` returns has no whitespace at either end, only plain
      spaces inside, and never two of them in a row. */
  lemma CleanNormalized(s: string)
    ensures Normalized(Clean(s))
  {
    CleanIsJoinedWords(s);
    WordsAreWords(s);
    JoinNormalized(Words(s));
  }

  lemma NormalizedSuffix(t: string, k: nat)
    requires Normalized(t) && k < |t| && !IsSpace(t[k])
    ensures Normalized(t[k..])
  {
    var v := t[k..];
    forall i | 0 <= i < |v| ensures v[i] == t[k + i] { }
  }

  /** In a normal form, a word that is not the whole string is followed
      by one plain space and then a word character. */
  lemma NormalizedAfterWord(t: string)
    requires Normalized(t) && t != [] && |Word(t)| < |t|
    ensures |Word(t)| + 1 < |t|
    ensures t[|Word(t)|] == ' ' && !IsSpace(t[|Word(t)| + 1])
  {
    var n := WordLen(t);
    assert IsSpace(t[n]);
  }

  /** `s.split()` on a word, one space and a string that starts with a word. */
  lemma WordsAfterSpace(t: string, k: nat)
    requires k == |Word(t)| && k + 1 < |t|
    requires t != [] && !IsSpace(t[0]) && t[k] == ' ' && !IsSpace(t[k + 1])
    ensures Words(t) == [Word(t)] + Words(t[k + 1..])
  {
    var rest := t[k..];
    var v := t[k + 1..];
    WordsStep(t);
    assert rest[1..] == v;
    TrimLeftOfWordStart(v);
    WordsSkipSpace(rest);
  }

  /** A normal form that is more than one word is a word, a space, and a
      shorter normal form. */
  lemma NormalizedSplit(t: string)
    requires Normalized(t) && t != [] && |Word(t)| < |t|
    ensures |Word(t)| + 1 < |t|
    ensures var v := t[|Word(t)| + 1..];
      && v != [] && Normalized(v)
      && t == Word(t) + (" " + v)
      && Words(t) == [Word(t)] + Words(v)
  {
    var k := |Word(t)|;
    NormalizedAfterWord(t);
    WordsAfterSpace(t, k);
    NormalizedSuffix(t, k + 1);
    SplitAtSpace(t, k);
  }

  lemma SplitAtSpace(t: string, k: nat)
    requires k < |t| && t[k] == ' '
    ensures t == t[..k] + (" " + t[k + 1..])
  {
    assert t[k..] == " " + t[k + 1..];
    assert t == t[..k] + t[k..];
  }

  lemma {:induction false} NormalizedIsJoinedWords(t: string)
    requires Normalized(t)
    ensures Join(Words(t)) == t
    decreases |t|
  {
    if t != [] {
      var w := Word(t);
      if |w| == |t| {
        WordsStep(t);
        assert t[|w|..] == [];
        assert Words(t) == [w];
      } else {
        NormalizedSplit(t);
        var v := t[|w| + 1..];
        NormalizedIsJoinedWords(v);
        WordsAreWords(v);
        JoinEnds(Words(v));
        JoinCons(w, Words(v));
        Reassociate(w, v, []);
        assert v + [] == v;
      }
    }
  }

  /** The strings `Clean` leaves unchanged are exactly the normal forms. */
  lemma CleanFixpoints(t: string)
    ensures Clean(t) == t <==> Normalized(t)
  {
    CleanNormalized(t);
    if Normalized(t) {
      NormalizedIsJoinedWords(t);
      CleanIsJoinedWords(t);
    }
  }

  /** `res.content.strip()` before normalising changes nothing. */
  lemma CleanAfterStrip(s: string)
    ensures Clean(Strip(s)) == Clean(s)
  {
    WordsTrimLeft(s);
    WordsTrimRight(TrimLeft(s));
    CleanIsJoinedWords(s);
    CleanIsJoinedWords(Strip(s));
  }
}
