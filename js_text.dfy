/**
  The JavaScript string primitives the breed scripts rely on, written out over
  `string` (a sequence of Unicode scalar values):
  - `\s` of a regular expression and the whitespace `String.prototype.trim` removes;
  - `toLowerCase` over Latin and Cyrillic;
  - `includes` / `indexOf`, `startsWith`, `replace` with a string pattern
    (first occurrence only) and `replace(/\s+/g, …)`;
  - `length` and `substring(0, n)`, which count UTF-16 code units.
 */
module JsText {

  datatype Option<+T> = None | Some(value: T)

  /** The characters matched by `\s` (and removed by `trim`): WhiteSpace and
      LineTerminator of ECMAScript, section 12.2 and 12.3 of ECMA-262. */
  predicate IsSpace(c: char) {
    || c == '\t' || c == '\n' || c == '\U{000B}' || c == '\U{000C}' || c == '\r'
    || c == ' ' || c == '\U{00A0}' || c == '\U{1680}'
    || ('\U{2000}' <= c <= '\U{200A}')
    || c == '\U{2028}' || c == '\U{2029}' || c == '\U{202F}' || c == '\U{205F}'
    || c == '\U{3000}' || c == '\U{FEFF}'
  }

  predicate NoSpace(s: string) {
    forall i :: 0 <= i < |s| ==> !IsSpace(s[i])
  }

  lemma NoSpaceAppend(a: string, b: string)
    requires NoSpace(a) && NoSpace(b)
    ensures NoSpace(a + b)
  {
    forall i | 0 <= i < |a + b|
      ensures !IsSpace((a + b)[i])
    {
      if i < |a| {
        assert (a + b)[i] == a[i];
      } else {
        assert (a + b)[i] == b[i - |a|];
      }
    }
  }

  // ---------------------------------------------------------------------------
  // toLowerCase

  /** Lower case of one character. Upper-case Latin and Cyrillic letters
      (including Ё and the other letters U+0400..U+040F) are mapped; so are the
      two characters outside those scripts whose lower case lies in `a`..`z`:
      U+0130 (dotted capital I, which lowers to "i" and a combining dot) and
      U+212A (the Kelvin sign, which lowers to "k"). */
  function LowerChar(c: char): (r: string)
    ensures |r| == 1 || c == '\U{0130}'
    ensures 'a' <= c <= 'z' || '\U{0430}' <= c <= '\U{045F}' || IsSpace(c) ==> r == [c]
    ensures !('A' <= c <= 'Z' || '\U{0400}' <= c <= '\U{042F}' || c == '\U{0130}' || c == '\U{212A}')
            ==> r == [c]
  {
    if 'A' <= c <= 'Z' || '\U{0410}' <= c <= '\U{042F}' then [(c as int + 32) as char]
    else if '\U{0400}' <= c <= '\U{040F}' then [(c as int + 80) as char]
    else if c == '\U{0130}' then ['i', '\U{0307}']
    else if c == '\U{212A}' then ['k']
    else [c]
  }

  /** `s.toLowerCase()`: every character becomes one or two characters. */
  function ToLower(s: string): (r: string)
    ensures |s| <= |r| <= 2 * |s|
  {
    if s == [] then [] else LowerChar(s[0]) + ToLower(s[1..])
  }

  /** The Cyrillic capitals, Ё in its alphabetical place, and their lower case. */
  const CyrillicCapitals: string := "АБВГДЕЁЖЗИЙКЛМНОПРСТУФХЦЧШЩЪЫЬЭЮЯ"
  const CyrillicSmall: string := "абвгдеёжзийклмнопрстуфхцчшщъыьэюя"
  /** The Latin capitals and their lower case. */
  const LatinCapitals: string := "ABCDEFGHIJKLMNOPQRSTUVWXYZ"
  const LatinSmall: string := "abcdefghijklmnopqrstuvwxyz"

  /** Lower-casing character by character: when every character of `s` lowers
      to the matching character of `t`, `s` lowers to `t`. */
  lemma {:induction false} ToLowerPointwise(s: string, t: string)
    requires |s| == |t|
    requires forall i :: 0 <= i < |s| ==> LowerChar(s[i]) == [t[i]]
    ensures ToLower(s) == t
  {
    if s != [] {
      ToLowerPointwise(s[1..], t[1..]);
      assert t == [t[0]] + t[1..];
    }
  }

  /** The Cyrillic alphabet in capitals lowers to the alphabet in small letters. */
  lemma LowerCyrillicAlphabet()
    ensures ToLower(CyrillicCapitals) == CyrillicSmall
  {
    ToLowerPointwise(CyrillicCapitals, CyrillicSmall);
  }

  /** The Latin alphabet in capitals lowers to the alphabet in small letters. */
  lemma LowerLatinAlphabet()
    ensures ToLower(LatinCapitals) == LatinSmall
  {
    ToLowerPointwise(LatinCapitals, LatinSmall);
  }

  /** Lower-casing distributes over concatenation. */
  lemma {:induction false} ToLowerAppend(a: string, b: string)
    ensures ToLower(a + b) == ToLower(a) + ToLower(b)
  {
    if a != [] {
      assert (a + b)[0] == a[0] && (a + b)[1..] == a[1..] + b;
      ToLowerAppend(a[1..], b);
    } else {
      assert a + b == b;
    }
  }

  /** Every character a lower case produces is left alone by LowerChar. */
  lemma LowerCharFixed(c: char)
    ensures ToLower(LowerChar(c)) == LowerChar(c)
  {
    var r := LowerChar(c);
    if |r| == 1 {
      assert ToLower(r) == LowerChar(r[0]) + ToLower([]);
    } else {
      assert r[1..] == ['\U{0307}'];
      assert ToLower(r) == LowerChar('i') + ToLower(['\U{0307}']);
    }
  }

  /** Lower-casing is idempotent. */
  lemma {:induction false} ToLowerIdempotent(s: string)
    ensures ToLower(ToLower(s)) == ToLower(s)
  {
    if s != [] {
      LowerCharFixed(s[0]);
      ToLowerAppend(LowerChar(s[0]), ToLower(s[1..]));
      ToLowerIdempotent(s[1..]);
    }
  }

  /** Text whose every character is its own lower case is left as it is. */
  lemma {:induction false} ToLowerUnchanged(s: string)
    requires forall i :: 0 <= i < |s| ==> LowerChar(s[i]) == [s[i]]
    ensures ToLower(s) == s
  {
    if s != [] {
      ToLowerUnchanged(s[1..]);
    }
  }

  /** Lower-casing text without whitespace yields text without whitespace,
      and never a shorter one. */
  lemma {:induction false} ToLowerNoSpace(s: string)
    requires NoSpace(s)
    ensures NoSpace(ToLower(s)) && |ToLower(s)| >= |s|
  {
    if s != [] {
      ToLowerNoSpace(s[1..]);
      var c := LowerChar(s[0]);
      assert NoSpace(c);
    }
  }

  // ---------------------------------------------------------------------------
  // trim

  /** The start of the whitespace run that ends at `j`, going back no
      further than `lo`. */
  function SpaceRunStart(s: string, lo: nat, j: nat): (k: nat)
    requires lo <= j <= |s|
    ensures lo <= k <= j
    ensures forall m :: k <= m < j ==> IsSpace(s[m])
    ensures k > lo ==> !IsSpace(s[k - 1])
    decreases j
  {
    if j > lo && IsSpace(s[j - 1]) then SpaceRunStart(s, lo, j - 1) else j
  }

  /** `r` is the slice of `s` at `i`, and everything of `s` around it is
      whitespace. */
  predicate TrimmedAt(s: string, r: string, i: nat) {
    && i + |r| <= |s| && r == s[i..i + |r|]
    && (forall k :: 0 <= k < i ==> IsSpace(s[k]))
    && (forall k :: i + |r| <= k < |s| ==> IsSpace(s[k]))
  }

  /** `s.trim()`: the result is a slice of `s`, only whitespace is cut off at
      either end, and the result neither starts nor ends with whitespace. */
  function Trim(s: string): (r: string)
    ensures exists i: nat :: TrimmedAt(s, r, i)
    ensures r != [] ==> !IsSpace(r[0]) && !IsSpace(r[|r| - 1])
  {
    var i := SpaceRunEnd(s, 0);
    var k := SpaceRunStart(s, i, |s|);
    assert TrimmedAt(s, s[i..k], i);
    s[i..k]
  }

  /** Trimming a string that neither starts nor ends with whitespace changes
      nothing. */
  lemma TrimUntouched(s: string)
    requires s != [] ==> !IsSpace(s[0]) && !IsSpace(s[|s| - 1])
    ensures Trim(s) == s
  {
  }

  /** Trimming a string without whitespace changes nothing. */
  lemma TrimNoSpace(s: string)
    requires NoSpace(s)
    ensures Trim(s) == s
  {
  }

  // ---------------------------------------------------------------------------
  // indexOf, includes, startsWith, replace

  predicate OccursAt(s: string, sub: string, i: nat) {
    i + |sub| <= |s| && s[i..i + |sub|] == sub
  }

  /** `s.indexOf(sub, from)`: the first position at or after `from` where
      `sub` occurs. */
  function IndexOf(s: string, sub: string, from: nat): (r: Option<nat>)
    ensures r.Some? ==> from <= r.value && OccursAt(s, sub, r.value)
                        && forall j :: from <= j < r.value ==> !OccursAt(s, sub, j)
    ensures r.None? ==> forall j :: from <= j ==> !OccursAt(s, sub, j)
    decreases |s| - from
  {
    if from + |sub| > |s| then None
    else if s[from..from + |sub|] == sub then Some(from)
    else IndexOf(s, sub, from + 1)
  }

  /** `s.includes(sub)` */
  predicate Includes(s: string, sub: string) {
    IndexOf(s, sub, 0).Some?
  }

  /** `includes` holds exactly when the pattern occurs somewhere. */
  lemma IncludesIff(s: string, sub: string)
    ensures Includes(s, sub) <==> exists i :: OccursAt(s, sub, i)
  {
  }

  /** A string includes each of its own slices. */
  lemma IncludesSlice(s: string, sub: string, i: nat)
    requires OccursAt(s, sub, i)
    ensures Includes(s, sub)
  {
  }

  /** A pattern with a character that `s` lacks does not occur in `s`. */
  lemma NotIncludesMissingChar(s: string, sub: string, c: char)
    requires c in sub && c !in s
    ensures !Includes(s, sub)
  {
    var k :| 0 <= k < |sub| && sub[k] == c;
    forall i: nat | i + |sub| <= |s|
      ensures !OccursAt(s, sub, i)
    {
      assert s[i..i + |sub|][k] == s[i + k];
    }
  }

  /** `s.startsWith(p)` */
  predicate StartsWith(s: string, p: string) {
    p <= s
  }

  /** `s.replace(sub, rep)` with a string pattern: only the first occurrence
      is replaced; without one, `s` is returned unchanged. */
  function ReplaceFirst(s: string, sub: string, rep: string): (r: string)
    ensures !Includes(s, sub) ==> r == s
    ensures Includes(s, sub) ==>
              exists i: nat :: (&& OccursAt(s, sub, i)
                                && (forall j :: 0 <= j < i ==> !OccursAt(s, sub, j))
                                && r == s[..i] + rep + s[i + |sub|..])
  {
    match IndexOf(s, sub, 0)
    case None => s
    case Some(i) => s[..i] + rep + s[i + |sub|..]
  }

  // ---------------------------------------------------------------------------
  // replace(/\s+/g, rep)

  /** The end of the whitespace run that starts at `i`. */
  function SpaceRunEnd(s: string, i: nat): (j: nat)
    requires i <= |s|
    ensures i <= j <= |s|
    ensures forall k :: i <= k < j ==> IsSpace(s[k])
    ensures j < |s| ==> !IsSpace(s[j])
    decreases |s| - i
  {
    if i < |s| && IsSpace(s[i]) then SpaceRunEnd(s, i + 1) else i
  }

  /** Whitespace in `s` is only single spaces: no other whitespace character,
      and never two whitespace characters in a row. */
  predicate SingleSpaced(s: string) {
    forall i :: 0 <= i < |s| && IsSpace(s[i]) ==> s[i] == ' ' && (i + 1 < |s| ==> !IsSpace(s[i + 1]))
  }

  lemma SingleSpacedCons(c: char, s: string)
    requires SingleSpaced(s)
    requires IsSpace(c) ==> c == ' ' && (s != [] ==> !IsSpace(s[0]))
    ensures SingleSpaced([c] + s)
  {
    var t := [c] + s;
    forall i | 0 <= i < |t| && IsSpace(t[i])
      ensures t[i] == ' ' && (i + 1 < |t| ==> !IsSpace(t[i + 1]))
    {
      if i > 0 {
        assert t[i] == s[i - 1];
        if i + 1 < |t| {
          assert t[i + 1] == s[i];
        }
      }
    }
  }

  /** A slice of a single-spaced string is single-spaced. */
  lemma SingleSpacedSlice(s: string, i: nat, j: nat)
    requires SingleSpaced(s) && i <= j <= |s|
    ensures SingleSpaced(s[i..j])
  {
    var t := s[i..j];
    forall k | 0 <= k < |t| && IsSpace(t[k])
      ensures t[k] == ' ' && (k + 1 < |t| ==> !IsSpace(t[k + 1]))
    {
      assert t[k] == s[i + k];
      if k + 1 < |t| {
        assert t[k + 1] == s[i + k + 1];
      }
    }
  }

  /** `s.replace(/\s+/g, rep)`: every maximal run of whitespace becomes `rep`.
      A leading non-whitespace character stays in front, and with `rep` a
      single space the result has only single spaces between its words. */
  function ReplaceSpaceRuns(s: string, rep: string): (r: string)
    ensures s != [] && !IsSpace(s[0]) ==> r != [] && r[0] == s[0]
    ensures rep == " " ==> SingleSpaced(r)
    decreases |s|
  {
    if s == [] then []
    else if IsSpace(s[0]) then
      var rest := ReplaceSpaceRuns(s[SpaceRunEnd(s, 0)..], rep);
      assert rep == " " ==> SingleSpaced(rep + rest) by {
        if rep == " " {
          SingleSpacedCons(' ', rest);
        }
      }
      rep + rest
    else
      var rest := ReplaceSpaceRuns(s[1..], rep);
      assert rep == " " ==> SingleSpaced([s[0]] + rest) by {
        if rep == " " {
          SingleSpacedCons(s[0], rest);
        }
      }
      [s[0]] + rest
  }

  /** Collapsing whitespace runs to single spaces and trimming leaves a string
      with single spaces between words and none at either end. */
  lemma CollapsedTrim(s: string)
    ensures SingleSpaced(Trim(ReplaceSpaceRuns(s, " ")))
  {
    var t := ReplaceSpaceRuns(s, " ");
    var r := Trim(t);
    var i: nat :| TrimmedAt(t, r, i);
    SingleSpacedSlice(t, i, i + |r|);
  }

  /** When the replacement holds no whitespace, neither does the result, and
      every character of the result is either from `s` or from `rep`. */
  lemma {:induction false} ReplaceSpaceRunsNoSpace(s: string, rep: string)
    requires NoSpace(rep)
    ensures NoSpace(ReplaceSpaceRuns(s, rep))
    ensures forall c :: c in ReplaceSpaceRuns(s, rep) ==> c in s || c in rep
    decreases |s|
  {
    if s != [] {
      if IsSpace(s[0]) {
        ReplaceSpaceRunsNoSpace(s[SpaceRunEnd(s, 0)..], rep);
      } else {
        ReplaceSpaceRunsNoSpace(s[1..], rep);
      }
    }
  }

  /** A string without whitespace is left unchanged. */
  lemma {:induction false} ReplaceSpaceRunsIdentity(s: string, rep: string)
    requires NoSpace(s)
    ensures ReplaceSpaceRuns(s, rep) == s
  {
    if s != [] {
      ReplaceSpaceRunsIdentity(s[1..], rep);
    }
  }

  /** The whitespace run at `i` ends at `j` when `s[i..j]` is whitespace and
      the character at `j`, if any, is not. */
  lemma SpaceRunEndAt(s: string, i: nat, j: nat)
    requires i <= j <= |s|
    requires forall k :: i <= k < j ==> IsSpace(s[k])
    requires j < |s| ==> !IsSpace(s[j])
    ensures SpaceRunEnd(s, i) == j
  {
  }

  /** The replacement works run by run: cutting before a character that is
      not whitespace splits no run, so both halves are rewritten apart. */
  lemma {:induction false} ReplaceSpaceRunsAppend(a: string, b: string, rep: string)
    requires b == [] || !IsSpace(b[0])
    ensures ReplaceSpaceRuns(a + b, rep) == ReplaceSpaceRuns(a, rep) + ReplaceSpaceRuns(b, rep)
    decreases |a|
  {
    if a == [] {
      assert a + b == b;
    } else if IsSpace(a[0]) {
      var k := SpaceRunEnd(a, 0);
      SpaceRunEndAt(a + b, 0, k);
      assert (a + b)[k..] == a[k..] + b;
      ReplaceSpaceRunsAppend(a[k..], b, rep);
    } else {
      assert (a + b)[1..] == a[1..] + b;
      ReplaceSpaceRunsAppend(a[1..], b, rep);
    }
  }

  /** A word without whitespace is copied as it is. */
  lemma {:induction false} ReplaceSpaceRunsAfterWord(a: string, b: string, rep: string)
    requires NoSpace(a)
    ensures ReplaceSpaceRuns(a + b, rep) == a + ReplaceSpaceRuns(b, rep)
    decreases |a|
  {
    if a == [] {
      assert a + b == b;
    } else {
      assert (a + b)[0] == a[0] && (a + b)[1..] == a[1..] + b;
      ReplaceSpaceRunsAfterWord(a[1..], b, rep);
      assert a == [a[0]] + a[1..];
    }
  }

  /** A whole run of whitespace, however long and of whatever characters,
      becomes exactly one copy of the replacement. */
  lemma ReplaceSpaceRunsRun(w: string, b: string, rep: string)
    requires w != [] && forall k :: 0 <= k < |w| ==> IsSpace(w[k])
    requires b == [] || !IsSpace(b[0])
    ensures ReplaceSpaceRuns(w + b, rep) == rep + ReplaceSpaceRuns(b, rep)
  {
    SpaceRunEndAt(w + b, 0, |w|);
    assert (w + b)[|w|..] == b;
  }

  /** A word, then a run of whitespace: the word is kept and the run becomes
      the replacement. */
  lemma ReplaceSpaceRunsWordThenRun(a: string, w: string, b: string, rep: string)
    requires NoSpace(a) && w != [] && forall k :: 0 <= k < |w| ==> IsSpace(w[k])
    requires b == [] || !IsSpace(b[0])
    ensures ReplaceSpaceRuns(a + w + b, rep) == a + rep + ReplaceSpaceRuns(b, rep)
  {
    assert a + w + b == a + (w + b);
    ReplaceSpaceRunsAfterWord(a, w + b, rep);
    ReplaceSpaceRunsRun(w, b, rep);
  }

  /** A non-empty word without whitespace survives the replacement in one
      piece, right after what `a` becomes. */
  lemma ReplaceSpaceRunsKeepsWord(a: string, v: string, b: string, rep: string)
    requires v != [] && NoSpace(v)
    ensures OccursAt(ReplaceSpaceRuns(a + v + b, rep), v, |ReplaceSpaceRuns(a, rep)|)
  {
    assert a + v + b == a + (v + b);
    ReplaceSpaceRunsAppend(a, v + b, rep);
    ReplaceSpaceRunsAfterWord(v, b, rep);
    var ra := ReplaceSpaceRuns(a, rep);
    var x := ra + (v + ReplaceSpaceRuns(b, rep));
    assert x[|ra|..|ra| + |v|] == v;
  }

  /** Trimming keeps every non-empty word without whitespace. */
  lemma TrimKeepsWord(s: string, v: string, i: nat)
    requires v != [] && NoSpace(v) && OccursAt(s, v, i)
    ensures Includes(Trim(s), v)
  {
    var r := Trim(s);
    var p: nat :| TrimmedAt(s, r, p);
    assert s[i] == v[0] && s[i + |v| - 1] == v[|v| - 1];
    assert p <= i;
    assert i + |v| <= p + |r|;
    var q := i - p;
    forall m | 0 <= m < |v|
      ensures r[q + m] == v[m]
    {
      assert r[q + m] == s[i + m];
      assert s[i..i + |v|][m] == s[i + m];
    }
    assert r[q..q + |v|] == v;
    IncludesSlice(r, v, q);
  }

  // ---------------------------------------------------------------------------
  // length and substring, counted in UTF-16 code units

  /** Code units of one character: two for characters outside the Basic
      Multilingual Plane (a surrogate pair), one otherwise. */
  function Units(c: char): nat {
    if c as int > 0xFFFF then 2 else 1
  }

  /** `s.length` */
  function Utf16Length(s: string): (n: nat)
    ensures |s| <= n <= 2 * |s|
  {
    if s == [] then 0 else Units(s[0]) + Utf16Length(s[1..])
  }

  /** `s.substring(0, n)`, cut at a character boundary: the longest prefix of
      `s` whose length in code units is at most `n`. */
  function Utf16Prefix(s: string, n: nat): (r: string)
    ensures r <= s
    ensures Utf16Length(r) <= n
    ensures r == s || Utf16Length(r) + Units(s[|r|]) > n
  {
    if s == [] || Units(s[0]) > n then []
    else [s[0]] + Utf16Prefix(s[1..], n - Units(s[0]))
  }

  /** A string no longer than `n` code units is its own prefix. */
  lemma {:induction false} Utf16PrefixWhole(s: string, n: nat)
    requires Utf16Length(s) <= n
    ensures Utf16Prefix(s, n) == s
  {
    if s != [] {
      Utf16PrefixWhole(s[1..], n - Units(s[0]));
    }
  }
}
