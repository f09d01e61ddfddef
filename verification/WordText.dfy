/** Words joined by spaces, and the `trim().split(/\s+/)` that takes them apart. */
module WordText {

  /** The characters of the regular-expression class \s, which trim() removes too. */
  predicate IsSpace(c: char) {
    || c == ' ' || '\t' <= c <= '\r' || c == '\U{00A0}' || c == '\U{1680}' || '\U{2000}' <= c <= '\U{200A}'
    || c == '\U{2028}' || c == '\U{2029}' || c == '\U{202F}' || c == '\U{205F}' || c == '\U{3000}' || c == '\U{FEFF}'
  }

  predicate IsWord(w: string) {
    w != "" && forall i :: 0 <= i < |w| ==> !IsSpace(w[i])
  }

  function JoinWords(words: seq<string>): string {
    if words == [] then ""
    else if |words| == 1 then words[0]
    else words[0] + " " + JoinWords(words[1..])
  }

  function TrimLeft(s: string): string {
    if s != "" && IsSpace(s[0]) then TrimLeft(s[1..]) else s
  }

  function TrimRight(s: string): string {
    if s != "" && IsSpace(s[|s| - 1]) then TrimRight(s[..|s| - 1]) else s
  }

  function Trim(s: string): string {
    TrimRight(TrimLeft(s))
  }

  /** The length of the leading run without spaces. */
  function RunLength(s: string): (k: nat)
    ensures k <= |s| && (forall i :: 0 <= i < k ==> !IsSpace(s[i])) && (k < |s| ==> IsSpace(s[k]))
  {
    if s == "" || IsSpace(s[0]) then 0 else 1 + RunLength(s[1..])
  }

  function SplitWords(s: string): (words: seq<string>)
    ensures words != []
    decreases |s|
  {
    var k := RunLength(s);
    if k == |s| then [s] else
      TrimLeftShrinks(s[k..]);
      [s[..k]] + SplitWords(TrimLeft(s[k..]))
  }

  lemma {:induction false} TrimLeftShrinks(s: string)
    ensures |TrimLeft(s)| <= |s|
    ensures s != "" && IsSpace(s[0]) ==> |TrimLeft(s)| < |s|
  {
    if s != "" && IsSpace(s[0]) {
      TrimLeftShrinks(s[1..]);
    }
  }

  lemma {:induction false} RunOfWord(w: string, rest: string)
    requires forall i :: 0 <= i < |w| ==> !IsSpace(w[i])
    requires rest == "" || IsSpace(rest[0])
    ensures RunLength(w + rest) == |w|
  {
    if w != "" {
      assert (w + rest)[1..] == w[1..] + rest;
      RunOfWord(w[1..], rest);
    } else {
      assert w + rest == rest;
    }
  }

  ghost predicate AreWords(words: seq<string>) {
    words != [] && forall i :: 0 <= i < |words| ==> IsWord(words[i])
  }

  lemma {:induction false} JoinEnds(words: seq<string>)
    requires AreWords(words)
    ensures var s := JoinWords(words); s != "" && !IsSpace(s[0]) && !IsSpace(s[|s| - 1])
  {
    assert IsWord(words[0]);
    if |words| > 1 {
      assert AreWords(words[1..]);
      JoinEnds(words[1..]);
    }
  }

  lemma {:induction false} SplitOfJoin(words: seq<string>)
    requires AreWords(words)
    ensures SplitWords(JoinWords(words)) == words
  {
    var w := words[0];
    if |words| == 1 {
      RunOfWord(w, "");
      assert w + "" == w;
    } else {
      var tail := JoinWords(words[1..]);
      assert AreWords(words[1..]);
      JoinEnds(words[1..]);
      SplitOfJoin(words[1..]);
      SplitStep(w, tail);
    }
  }

  lemma SplitStep(w: string, tail: string)
    requires IsWord(w) && tail != "" && !IsSpace(tail[0])
    ensures SplitWords(w + " " + tail) == [w] + SplitWords(tail)
  {
    var s := w + " " + tail;
    assert s == w + (" " + tail);
    RunOfWord(w, " " + tail);
    assert s[|w|..] == " " + tail && s[..|w|] == w;
    assert (" " + tail)[1..] == tail;
    assert TrimLeft(" " + tail) == TrimLeft(tail) == tail;
  }

  /** Joining words and reading them back gives the same words. */
  lemma ReadBack(words: seq<string>)
    requires AreWords(words)
    ensures SplitWords(Trim(JoinWords(words))) == words
  {
    JoinEnds(words);
    SplitOfJoin(words);
  }

  /** One space between two lists of words. */
  lemma {:induction false} JoinConcat(a: seq<string>, b: seq<string>)
    requires a != [] && b != []
    ensures JoinWords(a + b) == JoinWords(a) + " " + JoinWords(b)
  {
    if |a| == 1 {
      assert (a + b)[1..] == b;
    } else {
      JoinConcat(a[1..], b);
      assert (a + b)[1..] == a[1..] + b;
    }
  }

  /** The class \s of ECMAScript, by code point. */
  lemma SpaceClass(c: char)
    ensures var n := c as int;
            IsSpace(c) <==> 9 <= n <= 13 || 0x2000 <= n <= 0x200A
                            || n in {32, 0xA0, 0x1680, 0x2028, 0x2029, 0x202F, 0x205F, 0x3000, 0xFEFF}
  {
  }

  // ---------------------------------------------------------------------------
  // Any spacing
  // ---------------------------------------------------------------------------

  predicate AllSpaces(s: string) {
    forall i :: 0 <= i < |s| ==> IsSpace(s[i])
  }

  /** The words with gap i between word i and the next one, and whatever comes after them. */
  function Spread(words: seq<string>, gaps: seq<string>, trail: string): string
    requires |words| == |gaps| + 1
  {
    if gaps == [] then words[0] + trail else words[0] + (gaps[0] + Spread(words[1..], gaps[1..], trail))
  }

  ghost predicate AreGaps(gaps: seq<string>) {
    forall i :: 0 <= i < |gaps| ==> gaps[i] != "" && AllSpaces(gaps[i])
  }

  lemma {:induction false} TrimLeftSkips(gap: string, rest: string)
    requires AllSpaces(gap)
    ensures TrimLeft(gap + rest) == TrimLeft(rest)
  {
    if gap == "" {
      assert gap + rest == rest;
    } else {
      TrimLeftSkips(gap[1..], rest);
      assert (gap + rest)[1..] == gap[1..] + rest;
    }
  }

  lemma {:induction false} TrimRightSkips(text: string, trail: string)
    requires AllSpaces(trail)
    ensures TrimRight(text + trail) == TrimRight(text)
  {
    if trail == "" {
      assert text + trail == text;
    } else {
      var k := |trail| - 1;
      TrimRightSkips(text, trail[..k]);
      assert (text + trail)[..|text + trail| - 1] == text + trail[..k];
    }
  }

  lemma {:induction false} SpreadEnds(words: seq<string>, gaps: seq<string>, trail: string)
    requires |words| == |gaps| + 1 && AreWords(words)
    ensures Spread(words, gaps, trail) == Spread(words, gaps, "") + trail
    ensures var s := Spread(words, gaps, ""); s != "" && !IsSpace(s[0]) && !IsSpace(s[|s| - 1])
    decreases |words|
  {
    assert IsWord(words[0]);
    if gaps != [] {
      assert AreWords(words[1..]);
      SpreadEnds(words[1..], gaps[1..], trail);
    }
  }

  lemma {:induction false} SplitOfSpread(words: seq<string>, gaps: seq<string>)
    requires |words| == |gaps| + 1 && AreWords(words) && AreGaps(gaps)
    ensures SplitWords(Spread(words, gaps, "")) == words
    decreases |words|
  {
    assert IsWord(words[0]);
    if gaps == [] {
      RunOfWord(words[0], "");
      assert words[0] + "" == words[0];
    } else {
      var rest := Spread(words[1..], gaps[1..], "");
      assert AreWords(words[1..]);
      SplitOfSpread(words[1..], gaps[1..]);
      SpreadEnds(words[1..], gaps[1..], "");
      SplitGap(words[0], gaps[0], rest);
    }
  }

  lemma SplitGap(w: string, gap: string, rest: string)
    requires IsWord(w) && gap != "" && AllSpaces(gap) && rest != "" && !IsSpace(rest[0])
    ensures SplitWords(w + (gap + rest)) == [w] + SplitWords(rest)
  {
    var s := w + (gap + rest);
    RunOfWord(w, gap + rest);
    TrimLeftSkips(gap, rest);
    assert s[|w|..] == gap + rest && s[..|w|] == w;
  }

  lemma TrimSkips(lead: string, text: string, trail: string)
    requires AllSpaces(lead) && AllSpaces(trail) && text != "" && !IsSpace(text[0]) && !IsSpace(text[|text| - 1])
    ensures Trim(lead + (text + trail)) == text
  {
    TrimLeftSkips(lead, text + trail);
    TrimRightSkips(text, trail);
  }

  /** However the words are spaced out, and with whatever white space around them, they are read back. */
  lemma SpacingIgnored(lead: string, words: seq<string>, gaps: seq<string>, trail: string)
    requires |words| == |gaps| + 1 && AreWords(words) && AreGaps(gaps) && AllSpaces(lead) && AllSpaces(trail)
    ensures SplitWords(Trim(lead + Spread(words, gaps, trail))) == words
  {
    SpreadEnds(words, gaps, trail);
    TrimSkips(lead, Spread(words, gaps, ""), trail);
    SplitOfSpread(words, gaps);
  }
}
