/** Python string primitives used by the bot scripts, written out at the
    level of characters: str.strip, the whitespace class, substring tests,
    str.split with a separator and a limit, str.split() on whitespace,
    str.join, str.replace, str.zfill, ASCII lower-casing and int-to-text. */
module Text {

  /** Python's str.isspace(): the characters `strip()` removes and the
      regular-expression class `\s` matches in a str pattern. */
  predicate IsSpace(c: char) {
    ('\t' <= c <= '\r') || ('\U{1C}' <= c <= '\U{1F}') || c == ' '
    || c == '\U{85}' || c == '\U{A0}' || c == '\U{1680}'
    || ('\U{2000}' <= c <= '\U{200A}') || c == '\U{2028}' || c == '\U{2029}'
    || c == '\U{202F}' || c == '\U{205F}' || c == '\U{3000}'
  }

  predicate IsAsciiLetter(c: char) {
    ('a' <= c <= 'z') || ('A' <= c <= 'Z')
  }

  predicate IsAsciiDigit(c: char) {
    '0' <= c <= '9'
  }

  predicate NoSpaceAtEnds(s: string) {
    s == [] || (!IsSpace(s[0]) && !IsSpace(s[|s| - 1]))
  }

  /** str.lstrip(): drops the leading whitespace and nothing else. */
  function LStrip(s: string): (r: string)
    ensures |r| <= |s| && r == s[|s| - |r|..]
    ensures r == [] || !IsSpace(r[0])
    ensures forall i :: 0 <= i < |s| - |r| ==> IsSpace(s[i])
  {
    if s != [] && IsSpace(s[0]) then LStrip(s[1..]) else s
  }

  /** str.rstrip(): drops the trailing whitespace and nothing else. */
  function RStrip(s: string): (r: string)
    ensures |r| <= |s| && r == s[..|r|]
    ensures r == [] || !IsSpace(r[|r| - 1])
    ensures forall i :: |r| <= i < |s| ==> IsSpace(s[i])
  {
    if s != [] && IsSpace(s[|s| - 1]) then RStrip(s[..|s| - 1]) else s
  }

  /** str.strip(). */
  function Strip(s: string): (r: string)
    ensures NoSpaceAtEnds(r)
    ensures |r| <= |s|
  {
    var l := LStrip(s);
    var r := RStrip(l);
    assert r != [] ==> r[0] == l[0];
    r
  }

  lemma {:induction false} LStripNoop(s: string)
    requires s == [] || !IsSpace(s[0])
    ensures LStrip(s) == s
  {
  }

  lemma {:induction false} RStripNoop(s: string)
    requires s == [] || !IsSpace(s[|s| - 1])
    ensures RStrip(s) == s
  {
  }

  /** A string with no whitespace at either end is its own strip. */
  lemma StripNoop(s: string)
    requires NoSpaceAtEnds(s)
    ensures Strip(s) == s
  {
    LStripNoop(s);
    RStripNoop(s);
  }

  /** strip() is idempotent. */
  lemma StripIdempotent(s: string)
    ensures Strip(Strip(s)) == Strip(s)
  {
    StripNoop(Strip(s));
  }

  predicate AllSpace(g: string) {
    forall i :: 0 <= i < |g| ==> IsSpace(g[i])
  }

  /** strip() removes the whitespace at both ends and nothing else: the
      input is the result with whitespace before and after it. Together
      with NoSpaceAtEnds this pins the result down. */
  lemma StripSpec(s: string)
    ensures exists a, b :: s == a + Strip(s) + b && AllSpace(a) && AllSpace(b)
  {
    var l := LStrip(s);
    var r := RStrip(l);
    assert Strip(s) == r;
    var a := s[..|s| - |l|];
    var b := l[|r|..];
    assert AllSpace(a);
    assert AllSpace(b) by {
      forall j | 0 <= j < |b| ensures IsSpace(b[j]) {
        assert b[j] == l[|r| + j];
      }
    }
    StripParts(s, l, r, a, b);
  }

  lemma StripParts(s: string, l: string, r: string, a: string, b: string)
    requires |l| <= |s| && l == s[|s| - |l|..] && a == s[..|s| - |l|]
    requires |r| <= |l| && r == l[..|r|] && b == l[|r|..]
    ensures s == a + r + b
  {
    assert l == r + b;
    assert s == a + l;
  }

  /** Every character strip() keeps is a character of the input. */
  lemma StripKeepsChars(s: string)
    ensures forall i :: 0 <= i < |Strip(s)| ==> Strip(s)[i] in s
  {
    var l := LStrip(s);
    var r := RStrip(l);
    forall i | 0 <= i < |r| ensures r[i] in s {
      assert r[i] == l[i] == s[|s| - |l| + i];
    }
  }

  /** Whitespace in front of a text does not survive lstrip(). */
  lemma {:induction false} LStripPadded(pad: string, text: string)
    requires AllSpace(pad)
    ensures LStrip(pad + text) == LStrip(text)
    decreases |pad|
  {
    if pad != [] {
      var s := pad + text;
      assert s[0] == pad[0] && IsSpace(s[0]);
      assert s[1..] == pad[1..] + text;
      LStripPadded(pad[1..], text);
    } else {
      assert pad + text == text;
    }
  }

  /** Whitespace after a text does not survive rstrip(). */
  lemma {:induction false} RStripPadded(text: string, pad: string)
    requires AllSpace(pad)
    ensures RStrip(text + pad) == RStrip(text)
    decreases |pad|
  {
    if pad != [] {
      var s := text + pad;
      assert s[|s| - 1] == pad[|pad| - 1] && IsSpace(s[|s| - 1]);
      assert s[..|s| - 1] == text + pad[..|pad| - 1];
      RStripPadded(text, pad[..|pad| - 1]);
    } else {
      assert text + pad == text;
    }
  }

  /** A text with some non-whitespace keeps what follows it through lstrip(). */
  lemma {:induction false} LStripAppend(text: string, more: string)
    requires !AllSpace(text)
    ensures LStrip(text + more) == LStrip(text) + more
    decreases |text|
  {
    if IsSpace(text[0]) {
      assert (text + more)[1..] == text[1..] + more;
      assert !AllSpace(text[1..]) by {
        var k :| 0 <= k < |text| && !IsSpace(text[k]);
        assert text[1..][k - 1] == text[k];
      }
      LStripAppend(text[1..], more);
    } else {
      assert (text + more)[0] == text[0];
    }
  }

  lemma AllSpaceLStrip(s: string)
    requires AllSpace(s)
    ensures LStrip(s) == []
  {
  }

  /** Whitespace around a text does not change its strip(). */
  lemma StripPadded(pad: string, text: string, pad2: string)
    requires AllSpace(pad) && AllSpace(pad2)
    ensures Strip(pad + text) == Strip(text)
    ensures Strip(text + pad2) == Strip(text)
  {
    LStripPadded(pad, text);
    if AllSpace(text) {
      AllSpaceLStrip(text);
      assert AllSpace(text + pad2) by {
        forall j | 0 <= j < |text + pad2| ensures IsSpace((text + pad2)[j]) {
          if j >= |text| {
            assert (text + pad2)[j] == pad2[j - |text|];
          }
        }
      }
      AllSpaceLStrip(text + pad2);
    } else {
      LStripAppend(text, pad2);
      RStripPadded(LStrip(text), pad2);
    }
  }

  predicate StartsWith(s: string, prefix: string) {
    |prefix| <= |s| && s[..|prefix|] == prefix
  }

  predicate EndsWith(s: string, suffix: string) {
    |suffix| <= |s| && s[|s| - |suffix|..] == suffix
  }

  /** The last three pieces of a concatenation end it together. */
  lemma EndsWithLastThree(h: string, a: string, b: string, c: string)
    ensures EndsWith(h + a + b + c, a + b + c)
  {
    assert h + a + b + c == h + (a + b + c);
    EndsWithAppend(h, a + b + c);
  }

  lemma EndsWithAppend(s: string, suffix: string)
    ensures EndsWith(s + suffix, suffix)
  {
    assert (s + suffix)[|s|..] == suffix;
  }

  /** Python's `sub in s`. */
  predicate Contains(s: string, sub: string)
    decreases |s|
  {
    StartsWith(s, sub) || (s != [] && Contains(s[1..], sub))
  }

  /** sub occurs in s starting at position i. */
  predicate OccursAt(s: string, sub: string, i: nat) {
    i + |sub| <= |s| && s[i..i + |sub|] == sub
  }

  /** An occurrence in the tail is an occurrence one position later. */
  lemma OccursShift(s: string, sub: string, i: nat)
    requires s != []
    ensures OccursAt(s[1..], sub, i) <==> OccursAt(s, sub, i + 1)
  {
    if i + 1 + |sub| <= |s| {
      assert s[1..][i..i + |sub|] == s[i + 1..i + 1 + |sub|];
    }
  }

  /** `sub in s` holds exactly when sub occurs at some position of s. */
  lemma {:induction false} ContainsAt(s: string, sub: string)
    ensures Contains(s, sub) <==> exists i: nat :: OccursAt(s, sub, i)
    decreases |s|
  {
    if StartsWith(s, sub) {
      assert OccursAt(s, sub, 0);
    } else if s != [] {
      ContainsAt(s[1..], sub);
      if Contains(s[1..], sub) {
        var i: nat :| OccursAt(s[1..], sub, i);
        OccursShift(s, sub, i);
      }
      if exists i: nat :: OccursAt(s, sub, i) {
        var i: nat :| OccursAt(s, sub, i);
        assert i != 0;
        OccursShift(s, sub, i - 1);
      }
    }
  }

  /** An occurrence at a known position makes `sub in s` true. */
  lemma ContainsWitness(s: string, sub: string, i: nat)
    requires OccursAt(s, sub, i)
    ensures Contains(s, sub)
  {
    ContainsAt(s, sub);
  }

  /** The index of the first occurrence of c in s, or -1. */
  function Find(s: string, c: char): (i: int)
    ensures -1 <= i < |s|
    ensures i == -1 ==> c !in s
    ensures i >= 0 ==> s[i] == c && forall j :: 0 <= j < i ==> s[j] != c
  {
    if s == [] then -1
    else if s[0] == c then 0
    else var j := Find(s[1..], c); if j == -1 then -1 else j + 1
  }

  /** str.split(sep) for a one-character separator. */
  function Split(s: string, sep: char): (parts: seq<string>)
    ensures |parts| >= 1
    ensures sep in s <==> |parts| >= 2
    ensures |parts[0]| <= |s| && parts[0] == s[..|parts[0]|]
    ensures forall k :: 0 <= k < |parts| ==> sep !in parts[k]
    decreases |s|
  {
    var i := Find(s, sep);
    if i == -1 then [s] else [s[..i]] + Split(s[i + 1..], sep)
  }

  /** The piece before the separator at i, joined with pieces that join
      back to the text after it, gives the whole text. */
  lemma JoinPiece(s: string, i: nat, sep: char, rest: seq<string>)
    requires i < |s| && s[i] == sep && rest != [] && Join(rest, [sep]) == s[i + 1..]
    ensures Join([s[..i]] + rest, [sep]) == s
  {
    JoinCons(s[..i], rest, [sep]);
    assert s == s[..i] + [sep] + s[i + 1..];
  }

  /** Joining the pieces of a split with the separator gives the input back. */
  lemma {:induction false} JoinSplit(s: string, sep: char)
    ensures Join(Split(s, sep), [sep]) == s
    decreases |s|
  {
    var i := Find(s, sep);
    if i == -1 {
      assert Split(s, sep) == [s];
    } else {
      var rest := Split(s[i + 1..], sep);
      assert Split(s, sep) == [s[..i]] + rest;
      JoinSplit(s[i + 1..], sep);
      JoinPiece(s, i, sep, rest);
    }
  }

  /** str.split(sep, maxsplit) for a one-character separator: at most
      maxsplit cuts, so at most maxsplit + 1 pieces, the last one holding
      the rest of the string unsplit. */
  function SplitMax(s: string, sep: char, maxsplit: nat): (parts: seq<string>)
    ensures 1 <= |parts| <= maxsplit + 1
    ensures forall k :: 0 <= k < |parts| - 1 ==> sep !in parts[k]
    ensures |parts| < maxsplit + 1 ==> sep !in parts[|parts| - 1]
    decreases maxsplit
  {
    var i := Find(s, sep);
    if maxsplit == 0 || i == -1 then [s] else [s[..i]] + SplitMax(s[i + 1..], sep, maxsplit - 1)
  }

  /** SplitMax loses nothing: its pieces joined with the separator are the input. */
  lemma {:induction false} JoinSplitMax(s: string, sep: char, maxsplit: nat)
    ensures Join(SplitMax(s, sep, maxsplit), [sep]) == s
    decreases maxsplit
  {
    var i := Find(s, sep);
    if maxsplit == 0 || i == -1 {
      assert SplitMax(s, sep, maxsplit) == [s];
    } else {
      var rest := SplitMax(s[i + 1..], sep, maxsplit - 1);
      assert SplitMax(s, sep, maxsplit) == [s[..i]] + rest;
      JoinSplitMax(s[i + 1..], sep, maxsplit - 1);
      JoinPiece(s, i, sep, rest);
    }
  }

  /** sep.join(parts). */
  function Join(parts: seq<string>, sep: string): string {
    if parts == [] then []
    else if |parts| == 1 then parts[0]
    else parts[0] + sep + Join(parts[1..], sep)
  }

  /** Join of a first piece followed by a non-empty rest. */
  lemma JoinCons(x: string, rest: seq<string>, sep: string)
    requires rest != []
    ensures Join([x] + rest, sep) == x + sep + Join(rest, sep)
  {
    assert ([x] + rest)[1..] == rest;
  }

  lemma {:induction false} JoinAppend(parts: seq<string>, x: string, sep: string)
    ensures Join(parts + [x], sep) == if parts == [] then x else Join(parts, sep) + sep + x
    decreases |parts|
  {
    if |parts| > 1 {
      assert (parts + [x])[1..] == parts[1..] + [x];
      JoinAppend(parts[1..], x, sep);
    } else if |parts| == 1 {
      assert (parts + [x])[1..] == [x];
    }
  }

  /** str.split() with no argument: the maximal runs of non-whitespace. */
  function SplitWhitespace(s: string): (words: seq<string>)
    ensures forall k :: 0 <= k < |words| ==> IsWord(words[k])
    decreases |s|
  {
    var t := LStrip(s);
    if t == [] then []
    else
      WordPrefix(t);
      var n := WordLength(t);
      var rest := SplitWhitespace(t[n..]);
      WordsCons(t[..n], rest);
      [t[..n]] + rest
  }

  /** The length of the run of non-whitespace at the start of s. */
  function WordLength(s: string): (n: nat)
    ensures n <= |s|
    ensures forall i :: 0 <= i < n ==> !IsSpace(s[i])
    ensures n < |s| ==> IsSpace(s[n])
  {
    if s == [] || IsSpace(s[0]) then 0 else 1 + WordLength(s[1..])
  }

  predicate IsWord(w: string) {
    w != [] && forall c :: c in w ==> !IsSpace(c)
  }

  lemma WordsCons(w: string, rest: seq<string>)
    requires IsWord(w) && forall k :: 0 <= k < |rest| ==> IsWord(rest[k])
    ensures forall k :: 0 <= k < |rest| + 1 ==> IsWord(([w] + rest)[k])
  {
    forall k | 0 <= k < |rest| + 1 ensures IsWord(([w] + rest)[k]) {
      if k > 0 {
        assert ([w] + rest)[k] == rest[k - 1];
      }
    }
  }

  /** A string that does not start with whitespace starts with a word. */
  lemma WordPrefix(s: string)
    requires s != [] && !IsSpace(s[0])
    ensures WordLength(s) >= 1 && IsWord(s[..WordLength(s)])
  {
    var n := WordLength(s);
    forall c | c in s[..n] ensures !IsSpace(c) {
      var i :| 0 <= i < n && s[..n][i] == c;
    }
  }

  lemma {:induction false} WordLengthOfWord(w: string, rest: string)
    requires IsWord(w)
    requires rest == [] || IsSpace(rest[0])
    ensures WordLength(w + rest) == |w|
    decreases |w|
  {
    assert (w + rest)[0] == w[0];
    assert w[0] in w;
    if |w| > 1 {
      assert (w + rest)[1..] == w[1..] + rest;
      assert forall c :: c in w[1..] ==> c in w;
      WordLengthOfWord(w[1..], rest);
    } else {
      assert (w + rest)[1..] == rest;
    }
  }

  /** A word followed by whitespace (or nothing) is the first piece of the split. */
  lemma SplitLeadingWord(w: string, rest: string)
    requires IsWord(w)
    requires rest == [] || IsSpace(rest[0])
    ensures SplitWhitespace(w + rest) == [w] + SplitWhitespace(rest)
  {
    var s := w + rest;
    assert w[0] in w;
    LStripNoop(s);
    WordLengthOfWord(w, rest);
    assert s[..|w|] == w;
    assert s[|w|..] == rest;
  }

  /** Leading whitespace does not change the split. */
  lemma SplitSkipsSpace(c: char, s: string)
    requires IsSpace(c)
    ensures SplitWhitespace([c] + s) == SplitWhitespace(s)
  {
    assert ([c] + s)[1..] == s;
  }

  /** A word, a space and more text split into the word and the split of
      the rest. */
  lemma SplitWordThenMore(w: string, more: string)
    requires IsWord(w)
    ensures SplitWhitespace(w + " " + more) == [w] + SplitWhitespace(more)
  {
    assert w + " " + more == w + (" " + more);
    SplitLeadingWord(w, " " + more);
    SplitSkipsSpace(' ', more);
  }

  lemma SplitOneWord(w: string)
    requires IsWord(w)
    ensures SplitWhitespace(Join([w], " ")) == [w]
  {
    SplitLeadingWord(w, []);
    assert w + [] == w;
    assert LStrip([]) == [];
  }

  lemma HeadTail(s: seq<string>)
    requires s != []
    ensures [s[0]] + s[1..] == s
  {
  }

  /** One step of the round trip: the first word, then the rest. */
  lemma SplitWordsStep(words: seq<string>)
    requires |words| > 1 && IsWord(words[0])
    requires SplitWhitespace(Join(words[1..], " ")) == words[1..]
    ensures SplitWhitespace(Join(words, " ")) == words
  {
    SplitWordThenMore(words[0], Join(words[1..], " "));
    HeadTail(words);
  }

  /** `" ".join(words).split()` gives back the words when none is empty or
      holds whitespace: the round trip the download command relies on when
      it joins the command's arguments and later splits them again. */
  lemma {:induction false} SplitJoinedWords(words: seq<string>)
    requires forall k :: 0 <= k < |words| ==> IsWord(words[k])
    ensures SplitWhitespace(Join(words, " ")) == words
    decreases |words|
  {
    if words == [] {
      assert LStrip([]) == [];
    } else if |words| == 1 {
      SplitOneWord(words[0]);
      assert [words[0]] == words;
    } else {
      var tail := words[1..];
      forall k | 0 <= k < |tail| ensures IsWord(tail[k]) {
        assert tail[k] == words[k + 1];
      }
      SplitJoinedWords(tail);
      SplitWordsStep(words);
    }
  }

  /** Word w starts at position i of s, after whitespace only, and is
      followed by whitespace or the end of s. */
  predicate WordAt(s: string, w: string, i: int) {
    0 <= i <= |s| && AllSpace(s[..i]) && StartsWith(s[i..], w)
    && (i + |w| == |s| || IsSpace(s[i + |w|]))
  }

  /** s is the words in order, with whitespace before, between and after
      them and at least one whitespace character between two words. */
  ghost predicate Spaced(s: string, words: seq<string>)
    decreases |words|
  {
    if words == [] then AllSpace(s)
    else exists i :: WordAt(s, words[0], i) && Spaced(s[i + |words[0]|..], words[1..])
  }

  /** The words of str.split() are laid out in s, separated by whitespace. */
  lemma {:induction false} SplitWhitespaceSpaced(s: string)
    ensures Spaced(s, SplitWhitespace(s))
    decreases |s|
  {
    var t := LStrip(s);
    var i := |s| - |t|;
    if t == [] {
      assert AllSpace(s);
    } else {
      WordPrefix(t);
      var n := WordLength(t);
      var rest := t[n..];
      assert SplitWhitespace(s) == [t[..n]] + SplitWhitespace(rest);
      SplitWhitespaceSpaced(rest);
      assert AllSpace(s[..i]);
      assert s[i..] == t;
      assert s[i..][n..] == rest;
      SpacedCons(s, i, t[..n], SplitWhitespace(rest));
    }
  }

  /** A layout of the first word followed by a layout of the rest. */
  lemma SpacedCons(s: string, i: nat, w: string, ws: seq<string>)
    requires WordAt(s, w, i)
    requires Spaced(s[i..][|w|..], ws)
    ensures Spaced(s, [w] + ws)
  {
    assert ([w] + ws)[0] == w && ([w] + ws)[1..] == ws;
    assert s[i..][|w|..] == s[i + |w|..];
  }

  /** Whitespace in front does not change str.split(). */
  lemma {:induction false} SplitSkipsPad(pad: string, t: string)
    requires AllSpace(pad)
    ensures SplitWhitespace(pad + t) == SplitWhitespace(t)
    decreases |pad|
  {
    if pad != [] {
      assert pad + t == [pad[0]] + (pad[1..] + t);
      SplitSkipsSpace(pad[0], pad[1..] + t);
      SplitSkipsPad(pad[1..], t);
    } else {
      assert pad + t == t;
    }
  }

  /** Any whitespace-separated layout of words is the one str.split()
      finds: with SplitWhitespaceSpaced, the words are exactly the maximal
      runs of non-whitespace, in order. */
  lemma {:induction false} SpacedIsSplit(s: string, words: seq<string>)
    requires forall k :: 0 <= k < |words| ==> IsWord(words[k])
    requires Spaced(s, words)
    ensures SplitWhitespace(s) == words
    decreases |words|
  {
    if words == [] {
      SplitSkipsPad(s, []);
      assert s + [] == s;
      assert LStrip([]) == [];
    } else {
      var i := SpacedHead(s, words);
      var rest := s[i + |words[0]|..];
      Decompose(s, i, words[0]);
      forall k | 0 <= k < |words[1..]| ensures IsWord(words[1..][k]) {
        assert words[1..][k] == words[k + 1];
      }
      SpacedIsSplit(rest, words[1..]);
      SplitPadWord(s[..i], words[0], rest);
      HeadTail(words);
    }
  }

  /** The whitespace and the first word of a layout. */
  lemma SpacedHead(s: string, words: seq<string>) returns (i: nat)
    requires words != [] && Spaced(s, words)
    ensures WordAt(s, words[0], i) && Spaced(s[i + |words[0]|..], words[1..])
  {
    i :| WordAt(s, words[0], i) && Spaced(s[i + |words[0]|..], words[1..]);
  }

  /** The text before, the word and the text after it make up s. */
  lemma Decompose(s: string, i: nat, w: string)
    requires i <= |s| && StartsWith(s[i..], w)
    ensures s == s[..i] + (w + s[i + |w|..])
  {
    assert s[i..] == w + s[i + |w|..];
    assert s == s[..i] + s[i..];
  }

  lemma SplitPadWord(pad: string, w: string, rest: string)
    requires AllSpace(pad) && IsWord(w) && (rest == [] || IsSpace(rest[0]))
    ensures SplitWhitespace(pad + (w + rest)) == [w] + SplitWhitespace(rest)
  {
    SplitSkipsPad(pad, w + rest);
    SplitLeadingWord(w, rest);
  }

  /** str.replace(old, new): every non-overlapping occurrence, scanning left to right. */
  function ReplaceAll(s: string, pat: string, rep: string): string
    decreases |s|
  {
    if pat == [] then
      (if s == [] then rep else rep + [s[0]] + ReplaceAll(s[1..], pat, rep))
    else if StartsWith(s, pat) then rep + ReplaceAll(s[|pat|..], pat, rep)
    else if s == [] then []
    else [s[0]] + ReplaceAll(s[1..], pat, rep)
  }

  /** A string that does not contain `pat` comes out of replace unchanged. */
  lemma {:induction false} ReplaceAbsent(s: string, pat: string, rep: string)
    requires pat != [] && !Contains(s, pat)
    ensures ReplaceAll(s, pat, rep) == s
    decreases |s|
  {
    if s != [] {
      ReplaceAbsent(s[1..], pat, rep);
    }
  }

  /** str.zfill(width): left-pads with '0' to `width` characters, keeping a
      leading sign in front of the padding. */
  function ZFill(s: string, width: nat): (r: string)
    ensures |r| == if |s| >= width then |s| else width
    ensures |s| >= width ==> r == s
    ensures |s| < width && (s == [] || (s[0] != '+' && s[0] != '-')) ==>
              r == Repeat('0', width - |s|) + s
    ensures |s| < width && s != [] && (s[0] == '+' || s[0] == '-') ==>
              r[0] == s[0] && r[1..] == Repeat('0', width - |s|) + s[1..]
  {
    if |s| >= width then s
    else
      var pad := Repeat('0', width - |s|);
      if s != [] && (s[0] == '+' || s[0] == '-') then [s[0]] + pad + s[1..] else pad + s
  }

  /** c repeated n times; Python's `c * n`, empty when n <= 0. */
  function Repeat(c: char, n: int): (r: string)
    ensures |r| == if n <= 0 then 0 else n
    ensures forall i :: 0 <= i < |r| ==> r[i] == c
    decreases if n <= 0 then 0 else n
  {
    if n <= 0 then [] else [c] + Repeat(c, n - 1)
  }

  /** str.lower() on ASCII letters; every other character is kept. */
  function Lower(s: string): (r: string)
    ensures |r| == |s|
    ensures forall i :: 0 <= i < |s| ==> r[i] == if 'A' <= s[i] <= 'Z' then (s[i] as int + 32) as char else s[i]
  {
    if s == [] then [] else
      var c := s[0];
      [if 'A' <= c <= 'Z' then (c as int + 32) as char else c] + Lower(s[1..])
  }

  function DigitChar(d: nat): (c: char)
    requires d < 10
    ensures IsAsciiDigit(c)
  {
    ('0' as int + d) as char
  }

  /** str(n) for a natural number. */
  function NatToString(n: nat): (s: string)
    ensures s != []
    ensures forall i :: 0 <= i < |s| ==> IsAsciiDigit(s[i])
    ensures |s| == 1 <==> n < 10
    ensures |s| > 1 ==> s[0] != '0'
    ensures s[0] == '0' ==> n == 0
  {
    if n < 10 then [DigitChar(n)] else NatToString(n / 10) + [DigitChar(n % 10)]
  }

  /** int(s) for a string of ASCII digits. */
  function ParseNat(s: string): nat
    requires forall i :: 0 <= i < |s| ==> IsAsciiDigit(s[i])
  {
    if s == [] then 0
    else
      assert IsAsciiDigit(s[|s| - 1]);
      ParseNat(s[..|s| - 1]) * 10 + (s[|s| - 1] as int - '0' as int)
  }

  /** int(str(n)) == n. */
  lemma {:induction false} ParseNatToString(n: nat)
    ensures ParseNat(NatToString(n)) == n
  {
    var s := NatToString(n);
    if n >= 10 {
      assert s[..|s| - 1] == NatToString(n / 10);
      ParseNatToString(n / 10);
    }
  }
}
