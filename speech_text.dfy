/**
 * The text the browser page hands to speech synthesis (public/app.js,
 * `cleanTextForSpeech`): four global regular-expression replacements and a
 * trim, each written here as its own function over `string`.
 *
 *   1. remove every character of the listed emoji class,
 *   2. `*word*` becomes `word` (an asterisk pair around non-asterisks),
 *   3. `( ... )` up to the first `)` is removed,
 *   4. every run of JavaScript white space becomes one space,
 *   5. white space is trimmed from both ends.
 */
module SpeechText {

  /** The characters of the emoji class of the first replacement. */
  predicate IsListedEmoji(c: char) {
    c == '\U{1F47B}' || c == '\U{1F383}' || c == '\U{1F9D9}' || c == '\U{200D}' ||
    c == '\U{2640}' || c == '\U{FE0F}' || c == '\U{1F9DB}' || c == '\U{2642}' ||
    c == '\U{1F43A}' || c == '\U{1F9E0}' || c == '\U{2697}' || c == '\U{2728}' ||
    c == '\U{1F52E}' || c == '\U{1F319}' || c == '\U{1F4AD}'
  }

  /** JavaScript's white space and line terminators: what `\s` matches and `trim` removes. */
  predicate IsSpace(c: char) {
    c == '\t' || c == '\n' || c == '\U{000B}' || c == '\U{000C}' || c == '\r' || c == ' ' ||
    c == '\U{00A0}' || c == '\U{1680}' || ('\U{2000}' <= c <= '\U{200A}') ||
    c == '\U{2028}' || c == '\U{2029}' || c == '\U{202F}' || c == '\U{205F}' ||
    c == '\U{3000}' || c == '\U{FEFF}'
  }

  import opened Decimal

  /** The first position of `c` in `s`. */
  function FindChar(s: string, c: char): (r: Option<nat>)
    ensures r.None? ==> c !in s
    ensures r.Some? ==> r.value < |s| && s[r.value] == c && c !in s[..r.value]
  {
    if s == [] then None
    else if s[0] == c then Some(0)
    else
      match FindChar(s[1..], c)
      case None => None
      case Some(j) => assert s[..j + 1] == [s[0]] + s[1..][..j]; Some(j + 1)
  }

  /** `s` with every occurrence of `c` removed. */
  function Without(s: string, c: char): (r: string)
    ensures c !in r
  {
    if s == [] then [] else (if s[0] == c then [] else [s[0]]) + Without(s[1..], c)
  }

  /** `s` with every white-space character removed. */
  function NonSpace(s: string): (r: string) {
    if s == [] then [] else (if IsSpace(s[0]) then [] else [s[0]]) + NonSpace(s[1..])
  }

  /** No `(` is followed, anywhere later, by a `)`. */
  predicate NoClosedAside(s: string) {
    s == [] || ((s[0] == '(' ==> ')' !in s[1..]) && NoClosedAside(s[1..]))
  }

  /** White space only as single spaces, and none at either end. */
  predicate Normalized(r: string) {
    && (forall i :: 0 <= i < |r| && IsSpace(r[i]) ==> r[i] == ' ')
    && (forall i :: 0 <= i < |r| - 1 ==> !(r[i] == ' ' && r[i + 1] == ' '))
    && (r != [] ==> !IsSpace(r[0]) && !IsSpace(r[|r| - 1]))
  }

  // Step 1: `.replace(/[...]/g, '')`
  function RemoveEmoji(s: string): (r: string)
    ensures |r| <= |s|
    ensures forall c :: c in r ==> c in s && !IsListedEmoji(c)
  {
    if s == [] then []
    else if IsListedEmoji(s[0]) then RemoveEmoji(s[1..])
    else [s[0]] + RemoveEmoji(s[1..])
  }

  // Step 2: `.replace(/\*([^*]+)\*/g, '$1')`; a match needs at least one
  // character between the two asterisks, so `**` is left alone and the scan
  // moves on by one character.
  function StripEmphasis(s: string): (r: string)
    ensures |r| <= |s|
    ensures forall c :: c in r ==> c in s
    decreases |s|
  {
    if s == [] then []
    else if s[0] != '*' then [s[0]] + StripEmphasis(s[1..])
    else
      match FindChar(s[1..], '*')
      case None => s
      case Some(j) =>
        if j == 0 then [s[0]] + StripEmphasis(s[1..])
        else s[1..j + 1] + StripEmphasis(s[j + 2..])
  }

  // Step 3: `.replace(/\([^)]*\)/g, '')`
  function RemoveAsides(s: string): (r: string)
    ensures |r| <= |s|
    ensures forall c :: c in r ==> c in s
    ensures NoClosedAside(r)
    decreases |s|
  {
    if s == [] then []
    else if s[0] != '(' then [s[0]] + RemoveAsides(s[1..])
    else
      match FindChar(s[1..], ')')
      case None => NoCloseNoAside(s[1..]); s
      case Some(j) => RemoveAsides(s[j + 2..])
  }

  lemma {:induction false} NoCloseNoAside(s: string)
    requires ')' !in s
    ensures NoClosedAside(s)
  {
    if s != [] { NoCloseNoAside(s[1..]); }
  }

  /** How many white-space characters `s` starts with. */
  function LeadingSpaces(s: string): (n: nat)
    ensures n <= |s|
    ensures forall i :: 0 <= i < n ==> IsSpace(s[i])
    ensures n < |s| ==> !IsSpace(s[n])
  {
    if s != [] && IsSpace(s[0]) then 1 + LeadingSpaces(s[1..]) else 0
  }

  /** How many white-space characters `s` ends with. */
  function TrailingSpaces(s: string): (n: nat)
    ensures n <= |s|
    ensures forall i :: |s| - n <= i < |s| ==> IsSpace(s[i])
    ensures n < |s| ==> !IsSpace(s[|s| - 1 - n])
  {
    if s != [] && IsSpace(s[|s| - 1]) then
      var init := s[..|s| - 1];
      var m := TrailingSpaces(init);
      assert forall i :: |init| - m <= i < |init| ==> s[i] == init[i];
      1 + m
    else 0
  }

  /** The suffix of `s` after its leading white space. */
  function DropSpaces(s: string): string {
    s[LeadingSpaces(s)..]
  }

  /** The prefix of `s` before its trailing white space. */
  function DropTrailingSpaces(s: string): string {
    s[..|s| - TrailingSpaces(s)]
  }

  // Step 4: `.replace(/\s+/g, ' ')`
  function CollapseSpace(s: string): (r: string)
    ensures (r == []) == (s == [])
    ensures s != [] && IsSpace(s[0]) ==> r[0] == ' '
    ensures s != [] && !IsSpace(s[0]) ==> r[0] == s[0]
    decreases |s|
  {
    if s == [] then []
    else if IsSpace(s[0]) then [' '] + CollapseSpace(DropSpaces(s[1..]))
    else [s[0]] + CollapseSpace(s[1..])
  }

  /** Collapsing adds no character other than the space. */
  lemma {:induction false} CollapseKeepsChars(s: string)
    ensures forall c :: c in CollapseSpace(s) ==> c in s || c == ' '
    decreases |s|
  {
    if s != [] {
      var t := if IsSpace(s[0]) then DropSpaces(s[1..]) else s[1..];
      CollapseKeepsChars(t);
      assert forall c :: c in t ==> c in s;
    }
  }

  /** After collapsing, the only white space left is the plain space. */
  lemma {:induction false} CollapseLeavesPlainSpaces(s: string)
    ensures forall c :: c in CollapseSpace(s) && IsSpace(c) ==> c == ' '
    decreases |s|
  {
    if s != [] {
      var t := if IsSpace(s[0]) then DropSpaces(s[1..]) else s[1..];
      CollapseLeavesPlainSpaces(t);
    }
  }

  /** After collapsing, no two spaces are adjacent. */
  lemma {:induction false} CollapseLeavesSingleSpaces(s: string)
    ensures forall i :: 0 <= i < |CollapseSpace(s)| - 1 ==> !(CollapseSpace(s)[i] == ' ' && CollapseSpace(s)[i + 1] == ' ')
    decreases |s|
  {
    if s == [] {
    } else if IsSpace(s[0]) {
      var t := DropSpaces(s[1..]);
      CollapseLeavesSingleSpaces(t);
      SpaceThenCollapsed(t);
      assert CollapseSpace(s) == [' '] + CollapseSpace(t);
    } else {
      var t := s[1..];
      CollapseLeavesSingleSpaces(t);
      var rest := CollapseSpace(t);
      var r := [s[0]] + rest;
      assert r == CollapseSpace(s);
      assert r[0] != ' ';
      assert forall i :: 0 < i < |r| ==> r[i] == rest[i - 1];
    }
  }

  lemma SpaceThenCollapsed(t: string)
    requires t != [] ==> !IsSpace(t[0])
    requires forall i :: 0 <= i < |CollapseSpace(t)| - 1 ==> !(CollapseSpace(t)[i] == ' ' && CollapseSpace(t)[i + 1] == ' ')
    ensures forall i :: 0 <= i < |CollapseSpace(t)| ==> !(([' '] + CollapseSpace(t))[i] == ' ' && ([' '] + CollapseSpace(t))[i + 1] == ' ')
  {
    var rest := CollapseSpace(t);
    var r := [' '] + rest;
    assert rest != [] ==> rest[0] != ' ';
    assert forall i :: 0 < i < |r| ==> r[i] == rest[i - 1];
  }

  // Step 5: `.trim()`
  function Trim(s: string): string {
    DropTrailingSpaces(DropSpaces(s))
  }

  /** `cleanTextForSpeech(text)`. */
  function CleanTextForSpeech(text: string): string {
    Trim(CollapseSpace(RemoveAsides(StripEmphasis(RemoveEmoji(text)))))
  }

  // ---------------------------------------------------------------------
  // What the steps keep

  lemma {:induction false} WithoutAppend(a: string, b: string, c: char)
    ensures Without(a + b, c) == Without(a, c) + Without(b, c)
  {
    if a == [] {
      assert a + b == b;
    } else {
      assert (a + b)[1..] == a[1..] + b;
      WithoutAppend(a[1..], b, c);
    }
  }

  lemma {:induction false} WithoutAbsent(s: string, c: char)
    requires c !in s
    ensures Without(s, c) == s
  {
    if s != [] { WithoutAbsent(s[1..], c); }
  }

  lemma {:induction false} NonSpaceAppend(a: string, b: string)
    ensures NonSpace(a + b) == NonSpace(a) + NonSpace(b)
  {
    if a == [] {
      assert a + b == b;
    } else {
      assert (a + b)[1..] == a[1..] + b;
      NonSpaceAppend(a[1..], b);
    }
  }

  lemma {:induction false} NonSpaceDropSpaces(s: string)
    ensures NonSpace(DropSpaces(s)) == NonSpace(s)
  {
    if s != [] && IsSpace(s[0]) { NonSpaceDropSpaces(s[1..]); }
  }

  /** The emphasis step removes asterisks and nothing else, keeping the order of the rest. */
  lemma {:induction false} StripEmphasisKeepsText(s: string)
    ensures Without(StripEmphasis(s), '*') == Without(s, '*')
    decreases |s|
  {
    if s == [] {
    } else if s[0] != '*' {
      StripEmphasisKeepsText(s[1..]);
      WithoutAppend([s[0]], StripEmphasis(s[1..]), '*');
    } else {
      match FindChar(s[1..], '*')
      case None =>
      case Some(j) =>
        if j == 0 {
          StripEmphasisKeepsText(s[1..]);
          WithoutAppend([s[0]], StripEmphasis(s[1..]), '*');
        } else {
          StripEmphasisKeepsText(s[j + 2..]);
          assert s[1..][..j] == s[1..j + 1];
          EmphasisPairKeepsText(s[1..j + 1], s[j + 2..], StripEmphasis(s[j + 2..]));
          assert s == ['*'] + s[1..j + 1] + ['*'] + s[j + 2..];
        }
    }
  }

  lemma EmphasisPairKeepsText(inner: string, after: string, stripped: string)
    requires '*' !in inner
    requires Without(stripped, '*') == Without(after, '*')
    ensures Without(inner + stripped, '*') == Without(['*'] + inner + ['*'] + after, '*')
  {
    var star: string := ['*'];
    assert Without(star + inner + star + after, '*') == Without(star + inner + star, '*') + Without(after, '*') by {
      WithoutAppend(star + inner + star, after, '*');
    }
    assert Without(star + inner + star, '*') == inner by {
      assert Without(star, '*') == [] by { assert star[1..] == []; }
      WithoutAbsent(inner, '*');
      WithoutAppend(star + inner, star, '*');
      WithoutAppend(star, inner, '*');
    }
    assert Without(inner + stripped, '*') == Without(inner, '*') + Without(stripped, '*') by {
      WithoutAppend(inner, stripped, '*');
    }
    WithoutAbsent(inner, '*');
  }

  /** The white-space step changes white space only, keeping everything else in order. */
  lemma {:induction false} CollapseSpaceKeepsText(s: string)
    ensures NonSpace(CollapseSpace(s)) == NonSpace(s)
    decreases |s|
  {
    if s == [] {
    } else if IsSpace(s[0]) {
      CollapseSpaceKeepsText(DropSpaces(s[1..]));
      NonSpaceDropSpaces(s[1..]);
      NonSpaceAppend([' '], CollapseSpace(DropSpaces(s[1..])));
    } else {
      CollapseSpaceKeepsText(s[1..]);
      NonSpaceAppend([s[0]], CollapseSpace(s[1..]));
    }
  }

  lemma {:induction false} CollapseKeepsNoClosedAside(s: string)
    requires NoClosedAside(s)
    ensures NoClosedAside(CollapseSpace(s))
    decreases |s|
  {
    if s == [] {
    } else if IsSpace(s[0]) {
      SuffixKeepsNoClosedAside(s[1..], |s[1..]| - |DropSpaces(s[1..])|);
      CollapseKeepsNoClosedAside(DropSpaces(s[1..]));
    } else {
      CollapseKeepsNoClosedAside(s[1..]);
      CollapseKeepsChars(s[1..]);
    }
  }

  lemma {:induction false} SuffixKeepsNoClosedAside(s: string, k: nat)
    requires NoClosedAside(s) && k <= |s|
    ensures NoClosedAside(s[k..])
  {
    if k > 0 {
      SuffixKeepsNoClosedAside(s[1..], k - 1);
      assert s[1..][k - 1..] == s[k..];
    }
  }

  lemma {:induction false} PrefixKeepsNoClosedAside(s: string, k: nat)
    requires NoClosedAside(s) && k <= |s|
    ensures NoClosedAside(s[..k])
  {
    if k > 0 {
      PrefixKeepsNoClosedAside(s[1..], k - 1);
      assert s[..k][1..] == s[1..][..k - 1];
      assert forall c :: c in s[1..][..k - 1] ==> c in s[1..];
    }
  }

  /** A slice of a normalised-spacing string keeps single spaces only. */
  lemma SliceKeepsSpacing(s: string, a: nat, b: nat)
    requires a <= b <= |s|
    requires forall i :: 0 <= i < |s| && IsSpace(s[i]) ==> s[i] == ' '
    requires forall i :: 0 <= i < |s| - 1 ==> !(s[i] == ' ' && s[i + 1] == ' ')
    ensures var t := s[a..b];
      (forall i :: 0 <= i < |t| && IsSpace(t[i]) ==> t[i] == ' ') &&
      (forall i :: 0 <= i < |t| - 1 ==> !(t[i] == ' ' && t[i + 1] == ' '))
  {
    var t := s[a..b];
    forall i | 0 <= i < |t| - 1 ensures !(t[i] == ' ' && t[i + 1] == ' ') {
      assert t[i] == s[a + i] && t[i + 1] == s[a + i + 1];
    }
  }

  /** What `trim` leaves is a contiguous piece of its input. */
  lemma TrimSlice(w: string) returns (a: nat, b: nat)
    ensures a <= b <= |w| && Trim(w) == w[a..b]
  {
    var d := DropSpaces(w);
    a := |w| - |d|;
    b := a + |DropTrailingSpaces(d)|;
    assert d == w[a..];
  }

  /** Trimming a string whose white space is single spaces gives a normalised string. */
  lemma TrimNormalizes(w: string)
    requires forall i :: 0 <= i < |w| && IsSpace(w[i]) ==> w[i] == ' '
    requires forall i :: 0 <= i < |w| - 1 ==> !(w[i] == ' ' && w[i + 1] == ' ')
    ensures Normalized(Trim(w))
  {
    var a, b := TrimSlice(w);
    SliceKeepsSpacing(w, a, b);
  }

  lemma TrimKeepsNoClosedAside(w: string)
    requires NoClosedAside(w)
    ensures NoClosedAside(Trim(w))
  {
    var a, b := TrimSlice(w);
    SuffixKeepsNoClosedAside(w, a);
    PrefixKeepsNoClosedAside(w[a..], b - a);
    assert w[a..][..b - a] == w[a..b];
  }

  lemma TrimKeepsChars(w: string)
    ensures forall c :: c in Trim(w) ==> c in w
  {
    var a, b := TrimSlice(w);
  }

  /** The cleaned text contains none of the listed emoji. */
  lemma CleanTextHasNoEmoji(text: string)
    ensures forall c :: c in CleanTextForSpeech(text) ==> !IsListedEmoji(c)
  {
    var m := StripEmphasis(RemoveEmoji(text));
    var a := RemoveAsides(m);
    assert forall c :: c in a ==> c in m;
    CollapseThenTrimAddsOnlySpaces(a);
  }

  /** White-space collapsing and trimming bring in no character but the space. */
  lemma CollapseThenTrimAddsOnlySpaces(a: string)
    ensures forall c :: c in Trim(CollapseSpace(a)) ==> c in a || c == ' '
  {
    var w := CollapseSpace(a);
    CollapseKeepsChars(a);
    TrimKeepsChars(w);
  }

  lemma CollapseThenTrimNormalizes(a: string)
    ensures Normalized(Trim(CollapseSpace(a)))
  {
    var w := CollapseSpace(a);
    CollapseLeavesPlainSpaces(a);
    CollapseLeavesSingleSpaces(a);
    assert forall i :: 0 <= i < |w| - 1 ==> !(w[i] == ' ' && w[i + 1] == ' ');
    assert forall i :: 0 <= i < |w| && IsSpace(w[i]) ==> w[i] == ' ' by {
      forall i | 0 <= i < |w| && IsSpace(w[i]) ensures w[i] == ' ' {
        assert w[i] in w;
      }
    }
    TrimNormalizes(w);
  }

  /** The cleaned text has its white space as single inner spaces. */
  lemma CleanTextIsNormalized(text: string)
    ensures Normalized(CleanTextForSpeech(text))
  {
    CollapseThenTrimNormalizes(RemoveAsides(StripEmphasis(RemoveEmoji(text))));
  }

  /** The cleaned text holds no parenthetical aside any more. */
  lemma CleanTextHasNoAside(text: string)
    ensures NoClosedAside(CleanTextForSpeech(text))
  {
    var a := RemoveAsides(StripEmphasis(RemoveEmoji(text)));
    CollapseKeepsNoClosedAside(a);
    TrimKeepsNoClosedAside(CollapseSpace(a));
  }

  /** Apart from white space, the cleaned text is the input minus emoji, emphasis asterisks and asides. */
  lemma CleanTextKeepsPlainText(text: string)
    requires forall c :: c in text ==> !IsListedEmoji(c) && c != '*' && c != '('
    requires Normalized(text)
    ensures CleanTextForSpeech(text) == text
  {
    assert RemoveEmoji(text) == text by { RemoveEmojiAbsent(text); }
    assert StripEmphasis(text) == text by { StripEmphasisAbsent(text); }
    assert RemoveAsides(text) == text by { RemoveAsidesAbsent(text); }
    assert CollapseSpace(text) == text by { CollapseNormalized(text); }
    assert Trim(text) == text by {
      assert LeadingSpaces(text) == 0;
      assert TrailingSpaces(text) == 0;
    }
  }

  // ---------------------------------------------------------------------
  // What the steps do to plain text, emphasis and asides

  /** The emoji step works character by character: it distributes over concatenation. */
  lemma {:induction false} RemoveEmojiAppend(a: string, b: string)
    ensures RemoveEmoji(a + b) == RemoveEmoji(a) + RemoveEmoji(b)
  {
    if a == [] {
      assert a + b == b;
    } else {
      assert (a + b)[1..] == a[1..] + b;
      RemoveEmojiAppend(a[1..], b);
    }
  }

  /** Text before the first asterisk passes the emphasis step unchanged. */
  lemma {:induction false} StripEmphasisPlainPrefix(a: string, t: string)
    requires '*' !in a
    ensures StripEmphasis(a + t) == a + StripEmphasis(t)
  {
    if a == [] {
      assert a + t == t;
    } else {
      assert (a + t)[0] == a[0];
      assert (a + t)[1..] == a[1..] + t;
      StripEmphasisPlainPrefix(a[1..], t);
    }
  }

  /** The first `c` in `s` is at `n` when `s[n]` is `c` and no `c` comes before it. */
  lemma {:induction false} FindCharAt(s: string, c: char, n: nat)
    requires n < |s| && s[n] == c && c !in s[..n]
    ensures FindChar(s, c) == Some(n)
  {
    if n > 0 {
      assert s[..n][0] == s[0];
      assert s[1..][..n - 1] == s[..n][1..];
      FindCharAt(s[1..], c, n - 1);
    }
  }

  /** `*word*` becomes `word`, and the text after it is handled on its own. */
  lemma EmphasisPairStripped(w: string, t: string)
    requires '*' !in w && w != []
    ensures StripEmphasis(['*'] + w + ['*'] + t) == w + StripEmphasis(t)
  {
    var s := ['*'] + w + ['*'] + t;
    assert s[1..] == w + ['*'] + t;
    assert s[1..][..|w|] == w;
    FindCharAt(s[1..], '*', |w|);
    assert s[1..|w| + 1] == w;
    assert s[|w| + 2..] == t;
  }

  /** Text before the first `(` passes the aside step unchanged. */
  lemma {:induction false} RemoveAsidesPlainPrefix(a: string, t: string)
    requires '(' !in a
    ensures RemoveAsides(a + t) == a + RemoveAsides(t)
  {
    if a == [] {
      assert a + t == t;
    } else {
      assert (a + t)[0] == a[0];
      assert (a + t)[1..] == a[1..] + t;
      RemoveAsidesPlainPrefix(a[1..], t);
    }
  }

  /** An aside `( ... )` is removed whole, and the text after it is handled on its own. */
  lemma AsideRemoved(x: string, t: string)
    requires ')' !in x
    ensures RemoveAsides(['('] + x + [')'] + t) == RemoveAsides(t)
  {
    var s := ['('] + x + [')'] + t;
    assert s[1..] == x + [')'] + t;
    assert s[1..][..|x|] == x;
    FindCharAt(s[1..], ')', |x|);
    assert s[|x| + 2..] == t;
  }

  /** A `*` with no `*` after it is not emphasis: it is kept. */
  lemma LoneAsteriskKept(t: string)
    requires '*' !in t
    ensures StripEmphasis(['*'] + t) == ['*'] + t
  {
    assert (['*'] + t)[1..] == t;
  }

  /** A `(` with no `)` after it opens no aside: it is kept. */
  lemma UnclosedParenKept(t: string)
    requires ')' !in t
    ensures RemoveAsides(['('] + t) == ['('] + t
  {
    assert (['('] + t)[1..] == t;
  }

  lemma {:induction false} RemoveEmojiAbsent(s: string)
    requires forall c :: c in s ==> !IsListedEmoji(c)
    ensures RemoveEmoji(s) == s
  {
    if s != [] { RemoveEmojiAbsent(s[1..]); }
  }

  lemma {:induction false} StripEmphasisAbsent(s: string)
    requires '*' !in s
    ensures StripEmphasis(s) == s
  {
    if s != [] { StripEmphasisAbsent(s[1..]); }
  }

  lemma {:induction false} RemoveAsidesAbsent(s: string)
    requires '(' !in s
    ensures RemoveAsides(s) == s
  {
    if s != [] { RemoveAsidesAbsent(s[1..]); }
  }

  lemma {:induction false} CollapseNormalized(s: string)
    requires forall i :: 0 <= i < |s| && IsSpace(s[i]) ==> s[i] == ' '
    requires forall i :: 0 <= i < |s| - 1 ==> !(s[i] == ' ' && s[i + 1] == ' ')
    ensures CollapseSpace(s) == s
  {
    if s != [] {
      var t := s[1..];
      assert forall i :: 0 <= i < |t| - 1 ==> !(t[i] == ' ' && t[i + 1] == ' ') by {
        forall i | 0 <= i < |t| - 1 ensures !(t[i] == ' ' && t[i + 1] == ' ') {
          assert t[i] == s[i + 1] && t[i + 1] == s[i + 2];
        }
      }
      if IsSpace(s[0]) {
        assert t != [] ==> !IsSpace(t[0]) by {
          if t != [] { assert !(s[0] == ' ' && s[1] == ' '); }
        }
        assert DropSpaces(t) == t;
      }
      CollapseNormalized(t);
    }
  }
}
