/** The whitespace canonicaliser at the end of `clean_html_content`:
    every run of whitespace becomes one space (`re.sub(r'\s+', ' ', text)`),
    then both ends are stripped (`text.strip()`). `strip` on the request
    fields of the registry routes is the same `Strip`. */
module Text {

  /** Python's notion of a whitespace character (`str.isspace`), which is
      what both `\s` in a `str` pattern and `str.strip()` use. */
  predicate IsSpace(c: char) {
    var n := c as int;
    || (0x09 <= n <= 0x0D)
    || (0x1C <= n <= 0x20)
    || n == 0x85
    || n == 0xA0
    || n == 0x1680
    || (0x2000 <= n <= 0x200A)
    || n == 0x2028
    || n == 0x2029
    || n == 0x202F
    || n == 0x205F
    || n == 0x3000
  }

  /** The non-whitespace characters of `s`, in order. */
  function NonSpace(s: string): string {
    if |s| == 0 then ""
    else if IsSpace(s[0]) then NonSpace(s[1..])
    else [s[0]] + NonSpace(s[1..])
  }

  /** No whitespace other than `' '`, and never two whitespace characters in a row. */
  ghost predicate SingleSpaced(t: string) {
    && (forall i :: 0 <= i < |t| && IsSpace(t[i]) ==> t[i] == ' ')
    && (forall i, j :: 0 <= i && j == i + 1 && j < |t| ==> !(IsSpace(t[i]) && IsSpace(t[j])))
  }

  /** The shape of every normalised text: single-spaced, no whitespace at either end. */
  ghost predicate Canonical(t: string) {
    SingleSpaced(t) && Trimmed(t)
  }

  /** No whitespace at either end: the shape of what `str.strip()` returns. */
  predicate Trimmed(t: string) {
    |t| > 0 ==> !IsSpace(t[0]) && !IsSpace(t[|t| - 1])
  }

  /** `s.lstrip()`: drops exactly the maximal leading whitespace. */
  function TrimStart(s: string): (r: string)
    ensures |r| <= |s| && r == s[|s| - |r|..]
    ensures |r| > 0 ==> !IsSpace(r[0])
    ensures forall i :: 0 <= i < |s| - |r| ==> IsSpace(s[i])
    ensures NonSpace(r) == NonSpace(s)
    decreases |s|
  {
    if |s| > 0 && IsSpace(s[0]) then TrimStart(s[1..]) else s
  }

  /** `s.rstrip()`: drops exactly the maximal trailing whitespace. */
  function TrimEnd(s: string): (r: string)
    ensures |r| <= |s| && r == s[..|r|]
    ensures |r| > 0 ==> !IsSpace(r[|r| - 1])
    ensures forall i :: |r| <= i < |s| ==> IsSpace(s[i])
    ensures NonSpace(r) == NonSpace(s)
    decreases |s|
  {
    if |s| > 0 && IsSpace(s[|s| - 1]) then
      var r := TrimEnd(s[..|s| - 1]);
      NonSpaceDropLast(s);
      r
    else s
  }

  /** `r` is the slice of `s` that starts after its leading whitespace run,
      and everything of `s` after `r` is whitespace too. */
  ghost predicate StrippedFrom(r: string, s: string) {
    var a := |s| - |TrimStart(s)|;
    && a + |r| <= |s|
    && (forall i :: 0 <= i < |r| ==> r[i] == s[a + i])
    && (forall i :: 0 <= i < a ==> IsSpace(s[i]))
    && (forall i :: a + |r| <= i < |s| ==> IsSpace(s[i]))
  }

  /** `s.strip()`: the result is a slice of `s` with no whitespace at either
      end, and everything cut off on either side is whitespace. */
  function Strip(s: string): (r: string)
    ensures |r| <= |s|
    ensures StrippedFrom(r, s)
    ensures Trimmed(r)
    ensures NonSpace(r) == NonSpace(s)
  {
    StripSlice(s);
    StripEnds(s);
    TrimEnd(TrimStart(s))
  }

  lemma StripSlice(s: string)
    ensures StrippedFrom(TrimEnd(TrimStart(s)), s)
  {
    var t := TrimStart(s);
    var r := TrimEnd(t);
    assert |t| <= |s| && t == s[|s| - |t|..];
    assert |r| <= |t| && r == t[..|r|];
    SliceOfSuffix(s, t, r);
  }

  lemma StripEnds(s: string)
    ensures var r := TrimEnd(TrimStart(s));
            && (|r| > 0 ==> !IsSpace(r[0]) && !IsSpace(r[|r| - 1]))
            && NonSpace(r) == NonSpace(s)
  {
    var t := TrimStart(s);
    var r := TrimEnd(t);
    assert |r| > 0 ==> r[0] == t[0];
  }

  /** `re.sub(r'\s+', ' ', s)`: each maximal whitespace run becomes one `' '`. */
  function Collapse(s: string): (r: string)
    ensures |r| <= |s|
    ensures SingleSpaced(r)
    ensures |s| > 0 ==> |r| > 0 && (IsSpace(s[0]) <==> IsSpace(r[0]))
    ensures NonSpace(r) == NonSpace(s)
    decreases |s|
  {
    if |s| == 0 then ""
    else if IsSpace(s[0]) then
      var rest := Collapse(TrimStart(s[1..]));
      assert NonSpace(" " + rest) == NonSpace(rest) by {
        assert (" " + rest)[1..] == rest;
      }
      " " + rest
    else
      var rest := Collapse(s[1..]);
      assert NonSpace([s[0]] + rest) == [s[0]] + NonSpace(rest) by {
        assert ([s[0]] + rest)[1..] == rest;
      }
      [s[0]] + rest
  }

  /** The canonical text of a page: collapse whitespace runs, then strip. */
  function Normalize(s: string): (r: string)
    ensures |r| <= |s|
    ensures Canonical(r)
    ensures NonSpace(r) == NonSpace(s)
  {
    StripKeepsSingleSpaced(Collapse(s));
    Strip(Collapse(s))
  }

  // ---------------------------------------------------------------------
  // Helpers

  lemma NonSpaceDropLast(s: string)
    requires |s| > 0 && IsSpace(s[|s| - 1])
    ensures NonSpace(s[..|s| - 1]) == NonSpace(s)
    decreases |s|
  {
    if |s| > 1 {
      NonSpaceDropLast(s[1..]);
      assert s[1..][..|s[1..]| - 1] == s[..|s| - 1][1..];
    }
  }

  /** A prefix of a suffix is a slice; what the prefix leaves of the suffix lies at the end of `s`. */
  lemma SliceOfSuffix(s: string, t: string, r: string)
    requires |t| <= |s| && t == s[|s| - |t|..]
    requires |r| <= |t| && r == t[..|r|]
    requires forall i :: |r| <= i < |t| ==> IsSpace(t[i])
    ensures var a := |s| - |t|;
            && (forall i :: 0 <= i < |r| ==> r[i] == s[a + i])
            && forall i :: a + |r| <= i < |s| ==> IsSpace(s[i])
  {
    var a := |s| - |t|;
    forall i | a + |r| <= i < |s|
      ensures IsSpace(s[i])
    {
      assert s[i] == t[i - a];
    }
  }

  lemma StripKeepsSingleSpaced(c: string)
    requires SingleSpaced(c)
    ensures SingleSpaced(Strip(c))
  {
    SliceSingleSpaced(c, Strip(c), |c| - |TrimStart(c)|);
  }

  lemma SliceSingleSpaced(c: string, r: string, a: nat)
    requires SingleSpaced(c)
    requires a + |r| <= |c| && forall i :: 0 <= i < |r| ==> r[i] == c[a + i]
    ensures SingleSpaced(r)
  {
  }

  /** A single-spaced text is a fixed point of `Collapse`. */
  lemma {:induction false} CollapseSingleSpaced(t: string)
    requires SingleSpaced(t)
    ensures Collapse(t) == t
    decreases |t|
  {
    if |t| > 0 {
      SingleSpacedTail(t);
      CollapseSingleSpaced(t[1..]);
      assert t == [t[0]] + t[1..];
      if IsSpace(t[0]) {
        assert t[0] == ' ';
        assert TrimStart(t[1..]) == t[1..] by {
          if |t| > 1 {
            assert t[1..][0] == t[1] && !IsSpace(t[1]);
          }
        }
      }
    }
  }

  /** A single-spaced text stays single-spaced without its first character. */
  lemma SingleSpacedTail(t: string)
    requires |t| > 0 && SingleSpaced(t)
    ensures SingleSpaced(t[1..])
  {
    forall i, j | 0 <= i && j == i + 1 && j < |t[1..]|
      ensures !(IsSpace(t[1..][i]) && IsSpace(t[1..][j]))
    {
      assert t[1..][i] == t[i + 1] && t[1..][j] == t[j + 1];
    }
  }


  // ---------------------------------------------------------------------
  // Properties

  /** Normalisation is idempotent: a canonical text normalises to itself,
      so normalising twice is the same as normalising once. */
  lemma NormalizeIdempotent(s: string)
    ensures Normalize(Normalize(s)) == Normalize(s)
  {
    var t := Normalize(s);
    CollapseSingleSpaced(t);
    assert TrimStart(t) == t;
    assert TrimEnd(t) == t;
  }

  /** A text normalises to the empty string exactly when it is all whitespace. */
  lemma NormalizeEmptyIffBlank(s: string)
    ensures Normalize(s) == "" <==> forall i :: 0 <= i < |s| ==> IsSpace(s[i])
  {
    var t := Normalize(s);
    NonSpaceEmptyIffBlank(s);
    NonSpaceEmptyIffBlank(t);
  }

  lemma {:induction false} NonSpaceEmptyIffBlank(s: string)
    ensures NonSpace(s) == "" <==> forall i :: 0 <= i < |s| ==> IsSpace(s[i])
    decreases |s|
  {
    if |s| > 0 {
      NonSpaceEmptyIffBlank(s[1..]);
      assert forall i :: 1 <= i < |s| ==> s[i] == s[1..][i - 1];
    }
  }

  // ---------------------------------------------------------------------
  // Reference: the words of a text joined by single spaces

  /** No whitespace anywhere in `w`. */
  predicate SpaceFree(w: string) {
    forall i :: 0 <= i < |w| ==> !IsSpace(w[i])
  }

  /** The longest prefix of `s` free of whitespace. */
  function Word(s: string): (w: string)
    ensures |w| <= |s| && w == s[..|w|]
    ensures SpaceFree(w)
    ensures |w| < |s| ==> IsSpace(s[|w|])
    decreases |s|
  {
    if |s| == 0 || IsSpace(s[0]) then "" else [s[0]] + Word(s[1..])
  }

  /** Every element is a non-empty, whitespace-free word. */
  predicate AllWords(ws: seq<string>)
    decreases |ws|
  {
    |ws| == 0 || (ws[0] != "" && SpaceFree(ws[0]) && AllWords(ws[1..]))
  }

  /** `s.split()`: the maximal whitespace-free runs of `s`, in order. */
  function Words(s: string): (ws: seq<string>)
    ensures AllWords(ws)
    decreases |s|
  {
    var t := TrimStart(s);
    if t == "" then []
    else
      var w := Word(t);
      assert w != "" by { assert !IsSpace(t[0]); }
      [w] + Words(t[|w|..])
  }

  /** `' '.join(ws)`. */
  function Join(ws: seq<string>): string {
    if |ws| == 0 then ""
    else if |ws| == 1 then ws[0]
    else ws[0] + " " + Join(ws[1..])
  }

  lemma CollapseKeep(s: string)
    requires |s| > 0 && !IsSpace(s[0])
    ensures Collapse(s) == [s[0]] + Collapse(s[1..])
  {
  }

  lemma CollapseRun(s: string)
    requires |s| > 0 && IsSpace(s[0])
    ensures Collapse(s) == " " + Collapse(TrimStart(s))
  {
    assert TrimStart(s) == TrimStart(s[1..]);
  }

  lemma SpaceFreeTail(w: string)
    requires |w| > 0 && SpaceFree(w)
    ensures !IsSpace(w[0]) && SpaceFree(w[1..])
  {
    assert forall i :: 0 <= i < |w[1..]| ==> w[1..][i] == w[i + 1];
  }

  lemma ConsSplit(w: string, u: string)
    requires |w| > 0
    ensures (w + u)[0] == w[0] && (w + u)[1..] == w[1..] + u
    ensures [w[0]] + (w[1..] + u) == w + u
  {
    assert w == [w[0]] + w[1..];
  }

  /** Collapsing passes a leading whitespace-free run through unchanged. */
  lemma {:induction false} CollapseAfterWord(w: string, u: string)
    requires SpaceFree(w)
    ensures Collapse(w + u) == w + Collapse(u)
    decreases |w|
  {
    if |w| == 0 {
      assert w + u == u;
    } else {
      SpaceFreeTail(w);
      ConsSplit(w, u);
      CollapseKeep(w + u);
      CollapseAfterWord(w[1..], u);
      ConsSplit(w, Collapse(u));
    }
  }

  /** Trailing whitespace of a tail that is not all whitespace is trimmed within the tail. */
  lemma {:induction false} TrimEndAfter(p: string, q: string)
    requires TrimEnd(q) != ""
    ensures TrimEnd(p + q) == p + TrimEnd(q)
    decreases |q|
  {
    var n := |q| - 1;
    if IsSpace(q[n]) {
      assert (p + q)[..|p + q| - 1] == p + q[..n];
      TrimEndAfter(p, q[..n]);
    }
  }

  lemma ConcatAssoc(a: string, b: string, c: string)
    ensures a + (b + c) == (a + b) + c
  {
  }

  /** `Join` of a sequence with a known first word. */
  lemma JoinCons(w: string, ws: seq<string>)
    ensures Join([w] + ws) == if |ws| == 0 then w else w + " " + Join(ws)
  {
    assert ([w] + ws)[1..] == ws;
  }

  /** A non-empty whitespace-free word, with or without one trailing space, trims to itself. */
  lemma TrimEndWord(w: string)
    requires w != "" && SpaceFree(w)
    ensures TrimEnd(w) == w && TrimEnd(w + " ") == w
  {
    assert (w + " ")[..|w|] == w;
  }

  /** A text not starting with whitespace splits into its first word and the rest. */
  lemma WordsHead(t: string)
    requires |t| > 0 && !IsSpace(t[0])
    ensures var w := Word(t);
            && w != "" && t == w + t[|w|..]
            && Words(t) == [w] + Words(t[|w|..])
            && Collapse(t) == w + Collapse(t[|w|..])
  {
    assert TrimStart(t) == t;
    var w := Word(t);
    assert t == t[..|w|] + t[|w|..];
    CollapseAfterWord(w, t[|w|..]);
  }

  /** A text starting with whitespace has the words, and collapses like, its stripped start. */
  lemma WordsAfterRun(rest: string)
    requires |rest| > 0 && IsSpace(rest[0])
    ensures Words(rest) == Words(TrimStart(rest))
    ensures Collapse(rest) == " " + Collapse(TrimStart(rest))
  {
    CollapseRun(rest);
    assert TrimStart(TrimStart(rest)) == TrimStart(rest);
  }

  /** The normalisation of a text that does not start with whitespace, before its end is trimmed. */
  lemma {:induction false} CollapseWords(t: string)
    requires |t| > 0 ==> !IsSpace(t[0])
    ensures TrimEnd(Collapse(t)) == Join(Words(t))
    decreases |t|
  {
    if |t| > 0 {
      WordsHead(t);
      var w := Word(t);
      var rest := t[|w|..];
      if rest != "" && TrimStart(rest) != "" {
        CollapseWords(TrimStart(rest));
      }
      WordThenRest(w, rest);
    }
  }

  /** One step of `CollapseWords`: a word, then whitespace (or nothing) and the rest. */
  lemma WordThenRest(w: string, rest: string)
    requires w != "" && SpaceFree(w)
    requires rest == "" || IsSpace(rest[0])
    requires rest != "" && TrimStart(rest) != "" ==>
               TrimEnd(Collapse(TrimStart(rest))) == Join(Words(TrimStart(rest)))
    ensures TrimEnd(w + Collapse(rest)) == Join([w] + Words(rest))
  {
    TrimEndWord(w);
    if rest == "" {
      JoinCons(w, []);
      assert Words(rest) == [] && Collapse(rest) == "";
      assert w + Collapse(rest) == w;
    } else {
      WordsAfterRun(rest);
      var t2 := TrimStart(rest);
      JoinCons(w, Words(t2));
      ConcatAssoc(w, " ", Collapse(t2));
      if t2 == "" {
        assert Collapse(t2) == "" && Words(t2) == [];
        assert w + Collapse(rest) == w + " ";
      } else {
        TrimEndAfter(w + " ", Collapse(t2));
      }
    }
  }

  /** The canonicaliser agrees with the usual idiom `' '.join(s.split())`:
      its result is the words of the text, in order, separated by one space. */
  lemma NormalizeIsJoinedWords(s: string)
    ensures Normalize(s) == Join(Words(s))
  {
    var t := TrimStart(s);
    assert Words(t) == Words(s);
    CollapseWords(t);
    var c := Collapse(s);
    if |s| > 0 && IsSpace(s[0]) {
      assert TrimStart(s[1..]) == t;
      assert c == " " + Collapse(t);
      assert TrimStart(c) == Collapse(t);
    } else {
      assert t == s;
      assert TrimStart(c) == c;
    }
  }

  /** `re.sub(r'\s+', ' ', s)` in terms of the words of `s`: the words in
      order, one space between neighbours, plus one space in front when `s`
      starts with whitespace and one behind when whitespace follows its last
      word. An all-whitespace `s` collapses to a single space. */
  lemma CollapseIsSpacedWords(s: string)
    ensures Collapse(s) ==
              (if |s| > 0 && IsSpace(s[0]) then " " else "")
              + Join(Words(s))
              + (if |s| > 0 && Words(s) != [] && IsSpace(s[|s| - 1]) then " " else "")
  {
    if TrimStart(s) == "" {
      CollapseBlank(s);
    } else {
      CollapseNonBlank(s);
    }
  }

  /** An all-whitespace text has no words and collapses to at most one space. */
  lemma CollapseBlank(s: string)
    ensures TrimStart(s) == "" ==>
              && Words(s) == []
              && Collapse(s) == (if |s| > 0 && IsSpace(s[0]) then " " else "")
  {
    if TrimStart(s) == "" {
      CollapseLead(s);
      assert Collapse(TrimStart(s)) == "";
    }
  }

  /** A text with a word collapses to its joined words, with one space on
      each side where it has whitespace. */
  lemma CollapseNonBlank(s: string)
    requires TrimStart(s) != ""
    ensures Words(s) != []
    ensures Collapse(s) ==
              (if |s| > 0 && IsSpace(s[0]) then " " else "")
              + Join(Words(s))
              + (if IsSpace(s[|s| - 1]) then " " else "")
  {
    var lead := if |s| > 0 && IsSpace(s[0]) then " " else "";
    var trail := if IsSpace(s[|s| - 1]) then " " else "";
    var j := Join(Words(s));
    assert Words(s) != [] && Collapse(TrimStart(s)) == j + trail by {
      CollapseRest(s);
    }
    assert Collapse(s) == lead + (j + trail) by {
      CollapseLead(s);
    }
    ConcatAssoc(lead, j, trail);
  }

  /** What follows the leading whitespace collapses to the words, plus one
      space when the text ends in whitespace. */
  lemma CollapseRest(s: string)
    requires TrimStart(s) != ""
    ensures Words(s) != []
    ensures Collapse(TrimStart(s)) == Join(Words(s)) + (if IsSpace(s[|s| - 1]) then " " else "")
  {
    WordsLead(s);
    TrimStartLast(s);
    CollapseFromWord(TrimStart(s));
  }

  /** Stripping the start of a text with a word keeps its last character. */
  lemma TrimStartLast(s: string)
    requires TrimStart(s) != ""
    ensures TrimStart(s)[|TrimStart(s)| - 1] == s[|s| - 1]
  {
    var t := TrimStart(s);
    assert t == s[|s| - |t|..];
  }

  /** Leading whitespace collapses to one space in front of the collapsed rest. */
  lemma CollapseLead(s: string)
    ensures Collapse(s) == (if |s| > 0 && IsSpace(s[0]) then " " else "") + Collapse(TrimStart(s))
  {
    if |s| > 0 && IsSpace(s[0]) {
      CollapseRun(s);
    } else {
      var c := Collapse(s);
      assert TrimStart(s) == s;
      assert "" + c == c;
    }
  }

  /** Leading whitespace does not change the words. */
  lemma WordsLead(s: string)
    ensures Words(TrimStart(s)) == Words(s)
  {
    var t := TrimStart(s);
    assert Words(t) == Words(s);
  }

  /** A text starting with a word collapses to its joined words, plus one
      space when it ends in whitespace. */
  lemma CollapseFromWord(t: string)
    requires |t| > 0 && !IsSpace(t[0])
    ensures Words(t) != []
    ensures Collapse(t) == Join(Words(t)) + (if IsSpace(t[|t| - 1]) then " " else "")
  {
    var c := Collapse(t);
    assert TrimStart(t) == t;
    CollapseWords(t);
    TrimEndSingleSpaced(c);
    CollapseLast(t);
  }

  /** Collapsing ends in whitespace exactly when the text does. */
  lemma {:induction false} CollapseLast(s: string)
    requires |s| > 0
    ensures var c := Collapse(s); IsSpace(c[|c| - 1]) <==> IsSpace(s[|s| - 1])
    decreases |s|
  {
    var c := Collapse(s);
    if IsSpace(s[0]) {
      var t := TrimStart(s[1..]);
      assert c == " " + Collapse(t);
      if |t| == 0 {
        assert c == " ";
        if |s| > 1 { assert s[1..][|s| - 2] == s[|s| - 1]; }
      } else {
        CollapseLast(t);
        assert t[|t| - 1] == s[|s| - 1];
      }
    } else if |s| > 1 {
      assert c == [s[0]] + Collapse(s[1..]);
      CollapseLast(s[1..]);
    }
  }

  /** On a single-spaced text, trimming the end removes at most one space. */
  lemma TrimEndSingleSpaced(c: string)
    requires SingleSpaced(c)
    ensures c == TrimEnd(c) + (if |c| > 0 && IsSpace(c[|c| - 1]) then " " else "")
  {
    if |c| > 0 && IsSpace(c[|c| - 1]) {
      var n := |c| - 1;
      assert TrimEnd(c) == TrimEnd(c[..n]);
      if n > 0 {
        assert !IsSpace(c[n - 1]);
        assert TrimEnd(c[..n]) == c[..n];
      }
      assert c == c[..n] + [c[n]];
    }
  }
}
