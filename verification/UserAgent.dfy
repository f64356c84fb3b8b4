/** The client-supplied User-Agent as it may enter the audit chain (backend/audit/context.py). */
module UserAgent {
  import opened Joining
  import opened Optional

  const USER_AGENT_MAX: nat := 512

  /** What str.split() and str.rstrip() take for white space. */
  predicate IsSpace(c: char) {
    var u := c as int;
    9 <= u <= 13 || 28 <= u <= 32 || u == 0x85 || u == 0xA0 || u == 0x1680 || 0x2000 <= u <= 0x200A
    || u == 0x2028 || u == 0x2029 || u == 0x202F || u == 0x205F || u == 0x3000
  }

  /** C0, DEL and C1, and the line and paragraph separators. */
  predicate IsControl(c: char) {
    var u := c as int;
    u <= 0x1F || 0x7F <= u <= 0x9F || u == 0x2028 || u == 0x2029
  }

  /** Every control character replaced by a blank. */
  function Blank(s: string): (r: string)
    ensures |r| == |s|
    ensures forall i :: 0 <= i < |s| ==> r[i] == if IsControl(s[i]) then ' ' else s[i]
  {
    if s == [] then [] else [if IsControl(s[0]) then ' ' else s[0]] + Blank(s[1..])
  }

  predicate IsWord(w: string) { w != "" && forall i :: 0 <= i < |w| ==> !IsSpace(w[i]) }

  /** The longest front of `s` without white space. */
  function FrontWord(s: string): (w: string)
    ensures w <= s && (forall i :: 0 <= i < |w| ==> !IsSpace(w[i]))
    ensures |w| < |s| ==> IsSpace(s[|w|])
  {
    if s == [] || IsSpace(s[0]) then [] else [s[0]] + FrontWord(s[1..])
  }

  /** str.split(). */
  function Split(s: string): (words: seq<string>)
    ensures forall w :: w in words ==> IsWord(w)
    decreases |s|
  {
    if s == [] then []
    else if IsSpace(s[0]) then Split(s[1..])
    else var w := FrontWord(s); [w] + Split(s[|w|..])
  }

  /** str.rstrip(). */
  function RStrip(s: string): (r: string)
    ensures r <= s && (r != "" ==> !IsSpace(r[|r| - 1]))
    ensures forall i :: |r| <= i < |s| ==> IsSpace(s[i])
  {
    if s == [] || !IsSpace(s[|s| - 1]) then s else RStrip(s[..|s| - 1])
  }

  function Take(s: string, n: nat): string { if |s| <= n then s else s[..n] }

  function SanitizeText(value: string): string {
    RStrip(Take(Join(Split(Blank(value)), " "), USER_AGENT_MAX))
  }

  function Sanitize(value: Option<string>): Option<string> {
    if value.None? || value.value == "" then None
    else if SanitizeText(value.value) == "" then None
    else Some(SanitizeText(value.value))
  }

  // ---- what the result looks like ----

  /** White space only as single blanks, and none of it at the front. */
  ghost predicate FrontTidy(s: string) {
    && (s != "" ==> !IsSpace(s[0]))
    && forall i :: 0 <= i < |s| && IsSpace(s[i]) ==> s[i] == ' ' && (i + 1 < |s| ==> !IsSpace(s[i + 1]))
  }

  ghost predicate Tidy(s: string) { FrontTidy(s) && (s != "" ==> !IsSpace(s[|s| - 1])) }

  ghost predicate Clean(s: string) {
    && s != "" && |s| <= USER_AGENT_MAX && Tidy(s)
    && forall i :: 0 <= i < |s| ==> !IsControl(s[i])
  }

  lemma TidyMore(w: string, rest: string)
    requires IsWord(w) && rest != "" && Tidy(rest)
    ensures Tidy(w + (" " + rest))
  {
    hide IsSpace;
    var s, n := w + (" " + rest), |w|;
    assert IsSpace(' ') by { BlankIsSpace(); }
    assert forall i :: 0 <= i < n ==> s[i] == w[i];
    forall i | 0 <= i < |s| && IsSpace(s[i]) ensures s[i] == ' ' && (i + 1 < |s| ==> !IsSpace(s[i + 1])) {
      if i == n { assert s[i + 1] == rest[0]; }
      else { assert s[i] == rest[i - n - 1] && (i + 1 < |s| ==> s[i + 1] == rest[i - n]); }
    }
    assert s[0] == w[0] && s[|s| - 1] == rest[|rest| - 1];
  }

  lemma BlankIsSpace()
    ensures IsSpace(' ')
  {}

  lemma {:induction false} JoinTidy(words: seq<string>)
    requires forall w :: w in words ==> IsWord(w)
    ensures Tidy(Join(words, " ")) && (words != [] ==> Join(words, " ") != "")
  {
    if words != [] {
      assert IsWord(words[0]);
      if |words| > 1 {
        hide Tidy, IsWord;
        JoinTidy(words[1..]);
        TidyMore(words[0], Join(words[1..], " "));
      }
    }
  }

  /** Behind the first word of a tidy string comes one blank, and a tidy string with a word of its own. */
  lemma BehindWord(s: string)
    requires Tidy(s) && |FrontWord(s)| < |s|
    ensures var n := |FrontWord(s)|;
            s[n] == ' ' && s[n + 1..] != "" && Tidy(s[n + 1..]) && s == FrontWord(s) + (" " + s[n + 1..])
  {
    hide IsSpace, FrontWord;
    var n := |FrontWord(s)|;
    var rest := s[n + 1..];
    assert s[n] == ' ' && n + 1 < |s|;
    forall i | 0 <= i < |rest| && IsSpace(rest[i])
      ensures rest[i] == ' ' && (i + 1 < |rest| ==> !IsSpace(rest[i + 1]))
    {
      assert rest[i] == s[n + 1 + i];
    }
  }

  /** A tidy string is its own words joined by blanks. */
  lemma {:induction false} JoinSplit(s: string)
    requires Tidy(s)
    ensures Join(Split(s), " ") == s
    ensures s != "" ==> Split(s) != []
    decreases |s|
  {
    if s != "" {
      var w := FrontWord(s);
      if |w| < |s| {
        var rest := s[|w| + 1..];
        BehindWord(s);
        assert s[|w|..][1..] == rest;
        JoinSplit(rest);
        hide Tidy, FrontTidy, FrontWord;
        assert Split(s) == [w] + Split(rest);
      } else {
        assert s == w && s[|w|..] == "";
        assert Split(s) == [w];
      }
    }
  }

  lemma RStripTidy(s: string)
    requires FrontTidy(s)
    ensures Tidy(RStrip(s))
  {}

  lemma TakeFrontTidy(s: string, n: nat)
    requires Tidy(s)
    ensures FrontTidy(Take(s, n))
  {}

  lemma SplitChars(s: string)
    ensures forall w, i :: w in Split(s) && 0 <= i < |w| ==> w[i] in s
    decreases |s|
  {
    if s != "" {
      if IsSpace(s[0]) { SplitChars(s[1..]); }
      else {
        var w := FrontWord(s);
        SplitChars(s[|w|..]);
        assert s == w + s[|w|..];
      }
    }
  }

  lemma {:induction false} JoinChars(words: seq<string>, c: char)
    requires c in Join(words, " ")
    ensures c == ' ' || exists w :: w in words && c in w
  {
    if |words| > 1 && c !in words[0] && c != ' ' {
      assert c in Join(words[1..], " ");
      JoinChars(words[1..], c);
      var w :| w in words[1..] && c in w;
      assert w in words;
    }
  }

  /** No control character survives. */
  lemma NoControl(value: string)
    ensures forall c :: c in Join(Split(Blank(value)), " ") ==> !IsControl(c)
  {
    var words := Split(Blank(value));
    SplitChars(Blank(value));
    forall c | c in Join(words, " ") ensures !IsControl(c) {
      JoinChars(words, c);
      if c != ' ' {
        var w :| w in words && c in w;
        assert c in Blank(value);
      }
    }
  }

  /** No C0, DEL or C1 character, and no white space but the blank. */
  predicate Printable(c: char) {
    var u := c as int;
    0x20 <= u && !(0x7F <= u <= 0xA0) && u != 0x1680 && !(0x2000 <= u <= 0x200A)
    && u !in {0x2028, 0x2029, 0x202F, 0x205F, 0x3000}
  }

  /** A sanitised value is absent or clean: no control character, no leading, trailing or
      doubled white space, at most 512 characters. */
  lemma SanitizedClean(value: Option<string>)
    ensures Sanitize(value).Some? ==> Clean(Sanitize(value).value) && |Sanitize(value).value| <= 512
    ensures Sanitize(value).Some? ==> forall c :: c in Sanitize(value).value ==> Printable(c)
  {
    if value.Some? {
      var joined := Join(Split(Blank(value.value)), " ");
      JoinTidy(Split(Blank(value.value)));
      TakeFrontTidy(joined, USER_AGENT_MAX);
      RStripTidy(Take(joined, USER_AGENT_MAX));
      NoControl(value.value);
      var r := SanitizeText(value.value);
      forall i | 0 <= i < |r| ensures !IsControl(r[i]) { assert r[i] == joined[i]; }
    }
  }

  /** A clean value is left as it is. */
  lemma CleanUnchanged(s: string)
    requires Clean(s)
    ensures Sanitize(Some(s)) == Some(s)
  {
    hide Split, Join;
    assert Blank(s) == s;
    JoinSplit(s);
    assert RStrip(s) == s;
  }

  /** Sanitising twice is sanitising once, for every value. */
  lemma SanitizeIdempotent(value: Option<string>)
    ensures Sanitize(Sanitize(value)) == Sanitize(value)
  {
    if Sanitize(value).Some? {
      SanitizedClean(value);
      CleanUnchanged(Sanitize(value).value);
    }
  }

  /** A text made of words with white space before, between and behind them. */
  function Weave(gaps: seq<string>, words: seq<string>): string
    requires |gaps| == |words| + 1
  {
    if words == [] then gaps[0] else gaps[0] + (words[0] + Weave(gaps[1..], words[1..]))
  }

  predicate AllSpace(s: string) { forall i :: 0 <= i < |s| ==> IsSpace(s[i]) }

  /** Words that stand apart. */
  predicate Apart(gaps: seq<string>, words: seq<string>) {
    && |gaps| == |words| + 1
    && (forall w :: w in words ==> IsWord(w))
    && (forall g :: g in gaps ==> AllSpace(g))
    && forall i :: 0 < i < |words| ==> gaps[i] != ""
  }

  lemma {:induction false} SkipSpace(gap: string, rest: string)
    requires AllSpace(gap)
    ensures Split(gap + rest) == Split(rest)
  {
    if gap == "" {
      assert gap + rest == rest;
    } else {
      assert (gap + rest)[1..] == gap[1..] + rest;
      SkipSpace(gap[1..], rest);
    }
  }

  /** Splitting finds exactly the words, whatever white space stands around them. */
  lemma {:induction false} SplitWoven(gaps: seq<string>, words: seq<string>)
    requires Apart(gaps, words)
    ensures Split(Weave(gaps, words)) == words
  {
    hide IsSpace;
    if words == [] {
      SkipSpace(gaps[0], "");
      assert gaps[0] + "" == gaps[0];
    } else {
      var rest := Weave(gaps[1..], words[1..]);
      SkipSpace(gaps[0], words[0] + rest);
      assert IsWord(words[0]) && AllSpace(gaps[1]);
      assert rest != "" ==> IsSpace(rest[0]) by {
        if rest != "" && |words| > 1 { assert rest[0] == gaps[1][0]; }
      }
      FrontWordOf(words[0], rest);
      assert (words[0] + rest)[|words[0]|..] == rest;
      SplitWoven(gaps[1..], words[1..]);
      assert words == [words[0]] + words[1..];
    }
  }

  lemma SpaceInFront(c: char, gaps: seq<string>, words: seq<string>)
    requires Apart(gaps, words) && IsSpace(c)
    ensures var more := [[c] + gaps[0]] + gaps[1..];
            Apart(more, words) && Weave(more, words) == [c] + Weave(gaps, words)
  {
    hide IsSpace, IsWord;
    var more := [[c] + gaps[0]] + gaps[1..];
    assert more[1..] == gaps[1..];
    assert AllSpace(gaps[0]);
    forall g | g in more ensures AllSpace(g) { assert g == more[0] || g in gaps; }
    if words == [] {
      assert Weave(more, words) == more[0];
    } else {
      var rest := words[0] + Weave(gaps[1..], words[1..]);
      assert more[0] + rest == [c] + (gaps[0] + rest);
    }
  }

  lemma WordInFront(w: string, gaps: seq<string>, words: seq<string>)
    requires Apart(gaps, words) && IsWord(w) && (words != [] ==> gaps[0] != "")
    ensures Apart([""] + gaps, [w] + words) && Weave([""] + gaps, [w] + words) == w + Weave(gaps, words)
  {
    hide IsSpace, IsWord;
    var more, all := [""] + gaps, [w] + words;
    assert more[1..] == gaps && all[1..] == words;
    assert "" + (w + Weave(gaps, words)) == w + Weave(gaps, words);
  }

  /** And every text is its words with such white space around them. */
  lemma {:induction false} SplitCovers(s: string) returns (gaps: seq<string>)
    ensures Apart(gaps, Split(s)) && s == Weave(gaps, Split(s))
    ensures s != "" && !IsSpace(s[0]) ==> gaps[0] == ""
    decreases |s|
  {
    hide IsSpace, Weave;
    if s == "" {
      gaps := [""];
      assert Weave(gaps, []) == "" by { NoWords(""); }
    } else if IsSpace(s[0]) {
      var g := SplitCovers(s[1..]);
      gaps := [[s[0]] + g[0]] + g[1..];
      SpaceInFront(s[0], g, Split(s));
    } else {
      var w := FrontWord(s);
      var rest := s[|w|..];
      var g := SplitCovers(rest);
      gaps := [""] + g;
      if |w| < |s| { assert IsSpace(s[|w|]) && rest[0] == s[|w|]; }
      GapBefore(rest, g, Split(rest));
      WordInFront(w, g, Split(rest));
      assert s == w + rest;
    }
  }

  lemma NoWords(gap: string)
    ensures Weave([gap], []) == gap
  {}

  /** What begins with white space, or is empty, has a gap before its first word. */
  lemma GapBefore(s: string, gaps: seq<string>, words: seq<string>)
    requires Apart(gaps, words) && s == Weave(gaps, words) && (s != "" ==> IsSpace(s[0]))
    ensures words != [] ==> gaps[0] != ""
  {
    if words != [] { assert IsWord(words[0]); }
  }

  lemma {:induction false} SplitJoin(words: seq<string>)
    requires forall w :: w in words ==> IsWord(w)
    ensures Split(Join(words, " ")) == words
  {
    if words != [] {
      var w := words[0];
      var s := Join(words, " ");
      assert IsWord(w);
      FrontWordOf(w, if |words| == 1 then "" else " " + Join(words[1..], " "));
      assert w + "" == w;
      SplitJoin(words[1..]);
      if |words| > 1 {
        assert s[|w|..] == " " + Join(words[1..], " ");
        assert (" " + Join(words[1..], " "))[1..] == Join(words[1..], " ");
      }
      assert words == [w] + words[1..];
    }
  }

  lemma {:induction false} FrontWordOf(w: string, rest: string)
    requires (forall i :: 0 <= i < |w| ==> !IsSpace(w[i])) && (rest == "" || IsSpace(rest[0]))
    ensures FrontWord(w + rest) == w
  {
    if w != "" {
      assert (w + rest)[1..] == w[1..] + rest;
      FrontWordOf(w[1..], rest);
    } else {
      assert w + rest == rest;
    }
  }

  /** What is stored of any value: nothing when it holds no word, that is, nothing but control
      characters and white space; else its words with single blanks between them, cut only when
      they are too long, and then at most one character more than the limit asks for. */
  lemma SanitizeKeepsWords(value: string)
    ensures var words, r := Split(Blank(value)), Sanitize(Some(value));
            && (r.None? <==> words == [])
            && (r.Some? ==>
                  && r.value <= Join(words, " ")
                  && (|Join(words, " ")| <= 512 ==> r.value == Join(words, " ") && Split(r.value) == words)
                  && (|Join(words, " ")| > 512 ==> 511 <= |r.value| <= 512))
  {
    var words := Split(Blank(value));
    var joined := Join(words, " ");
    JoinTidy(words);
    SplitJoin(words);
    TakeFrontTidy(joined, USER_AGENT_MAX);
    var t := Take(joined, USER_AGENT_MAX);
    if |joined| <= USER_AGENT_MAX { assert RStrip(t) == joined; }
    else { assert IsSpace(t[USER_AGENT_MAX - 1]) ==> !IsSpace(t[USER_AGENT_MAX - 2]); }
  }

  /** So of a text made of words and white space or control characters around them, the words are stored. */
  lemma SanitizeWoven(value: string, gaps: seq<string>, words: seq<string>)
    requires Apart(gaps, words) && Blank(value) == Weave(gaps, words) && |Join(words, " ")| <= USER_AGENT_MAX
    ensures Sanitize(Some(value)) == if words == [] then None else Some(Join(words, " "))
  {
    hide Split, Sanitize, Join, Weave, Apart;
    SplitWoven(gaps, words);
    SanitizeKeepsWords(value);
  }
}
