/**
  `normalizeBreed` of test-all-breeds.js: turns a Russian breed name into the
  slug of a breed page on the secondary site. The stages, in order:
  1. lower-case and trim;
  2. seven `replace` passes that delete coat and "cat" descriptor words,
     each only when whitespace precedes it;
  3. at most one hand-written override, the longest key first;
  4. character-by-character transliteration, skipped when the string already
     equals an override value;
  5. clean-up into `[a-z0-9-]` with single, inner hyphens.
 */
module Slug {
  import opened JsText
  import opened Lists

  // ---------------------------------------------------------------------------
  // Stage 2: descriptor words

  /** One pattern `\s+ STEM [SUFFIX]? \s*` of a descriptor-removing `replace`:
      each element of `stem` is a character class (the string of characters it
      accepts) and `suffix` is the class of the optional one-letter ending. */
  datatype Descriptor = Descriptor(stem: seq<string>, suffix: string)

  /** `[аяуюойые]`, the ending class of the adjective patterns. */
  const AdjectiveEnding: string := "аяуюойые"

  /** `кошк[аиуеы]?` */
  const CatFemale := Descriptor(["к", "о", "ш", "к"], "аиуеы")
  /** `кот[ауеы]?` */
  const CatMale := Descriptor(["к", "о", "т"], "ауеы")
  /** `короткош[ёе]рстн[аяуюойые]?` */
  const ShortHair :=
    Descriptor(["к", "о", "р", "о", "т", "к", "о", "ш", "ёе", "р", "с", "т", "н"], AdjectiveEnding)
  /** `длиннош[ёе]рстн[аяуюойые]?` */
  const LongHair :=
    Descriptor(["д", "л", "и", "н", "н", "о", "ш", "ёе", "р", "с", "т", "н"], AdjectiveEnding)
  /** `полудлиннош[ёе]рстн[аяуюойые]?` */
  const SemiLongHair :=
    Descriptor(["п", "о", "л", "у", "д", "л", "и", "н", "н", "о", "ш", "ёе", "р", "с", "т", "н"],
               AdjectiveEnding)
  /** `лыс[аяуюойые]?` */
  const Hairless := Descriptor(["л", "ы", "с"], AdjectiveEnding)
  /** `ориентальн[аяуюойые]?` */
  const Oriental := Descriptor(["о", "р", "и", "е", "н", "т", "а", "л", "ь", "н"], AdjectiveEnding)

  /** The seven patterns, in the order the passes run. */
  const Descriptors: seq<Descriptor> :=
    [CatFemale, CatMale, ShortHair, LongHair, SemiLongHair, Hairless, Oriental]

  /** The stem matches `s` at position `j`. */
  predicate StemAt(s: string, j: nat, stem: seq<string>)
    requires j <= |s|
    ensures StemAt(s, j, stem) ==> j + |stem| <= |s|
    decreases |stem|
  {
    stem == [] || (j < |s| && s[j] in stem[0] && StemAt(s, j + 1, stem[1..]))
  }

  /** The stem matches at `j` exactly when each of its classes accepts the
      character it meets. */
  lemma {:induction false} StemAtIff(s: string, j: nat, stem: seq<string>)
    requires j <= |s|
    ensures StemAt(s, j, stem) <==>
              j + |stem| <= |s| && forall k :: 0 <= k < |stem| ==> s[j + k] in stem[k]
    decreases |stem|
  {
    if stem != [] && j < |s| {
      StemAtIff(s, j + 1, stem[1..]);
      if j + |stem| <= |s| && forall k :: 1 <= k < |stem| ==> s[j + k] in stem[k] {
        assert forall k :: 0 <= k < |stem| - 1 ==> s[j + 1 + k] in stem[1..][k] by {
          forall k | 0 <= k < |stem| - 1 ensures s[j + 1 + k] in stem[1..][k] {
            assert s[j + (k + 1)] in stem[k + 1];
          }
        }
      }
    }
  }

  /** Where a match of `d` that starts at the head of `s` ends, if one does.
      The greedy `\s+` must take the whole whitespace run (a stem never starts
      with whitespace), the optional ending is taken whenever it is there
      (the `\s*` after it cannot fail), and `\s*` takes the whole run after. */
  function MatchEnd(s: string, d: Descriptor): (e: Option<nat>)
    ensures e.Some? <==> s != [] && IsSpace(s[0]) && StemAt(s, SpaceRunEnd(s, 0), d.stem)
    ensures e.Some? ==> SpaceRunEnd(s, 0) + |d.stem| <= e.value <= |s|
                        && (e.value < |s| ==> !IsSpace(s[e.value]))
    ensures e.Some? ==>
              var k := SpaceRunEnd(s, 0) + |d.stem|;
              (k < |s| && s[k] in d.suffix ==> k < e.value)
              && (k < e.value ==> IsSpace(s[k]) || s[k] in d.suffix)
              && forall i :: k < i < e.value ==> IsSpace(s[i])
  {
    if s == [] || !IsSpace(s[0]) then None
    else
      var j := SpaceRunEnd(s, 0);
      if !StemAt(s, j, d.stem) then None
      else
        var k := j + |d.stem|;
        var k' := if k < |s| && s[k] in d.suffix then k + 1 else k;
        Some(SpaceRunEnd(s, k'))
  }

  /** `s.replace(…, "")` with the pattern `\s+STEM[SUFFIX]?\s*` and the flags
      g and i: scanning left to right, every match is deleted and the scan
      resumes after it. */
  function RemoveDescriptor(s: string, d: Descriptor): (r: string)
    ensures |r| <= |s|
    decreases |s|
  {
    if s == [] then []
    else match MatchEnd(s, d)
      case Some(e) => RemoveDescriptor(s[e..], d)
      case None => [s[0]] + RemoveDescriptor(s[1..], d)
  }

  /** The seven passes, one after the other. */
  function RemoveDescriptors(s: string, ds: seq<Descriptor>): string
    decreases |ds|
  {
    if ds == [] then s else RemoveDescriptors(RemoveDescriptor(s, ds[0]), ds[1..])
  }

  /** The passes are applied first to last. */
  lemma RemoveDescriptorsHead(s: string, ds: seq<Descriptor>)
    requires ds != []
    ensures RemoveDescriptors(s, ds) == RemoveDescriptors(RemoveDescriptor(s, ds[0]), ds[1..])
  {
  }

  /** A pass only deletes: what it keeps is a subsequence of `s`, in order,
      and it adds no character. */
  lemma {:induction false} RemoveDescriptorDeletes(s: string, d: Descriptor)
    ensures IsSubsequence(RemoveDescriptor(s, d), s)
    ensures multiset(RemoveDescriptor(s, d)) <= multiset(s)
    decreases |s|
  {
    if s != [] {
      match MatchEnd(s, d)
      case Some(e) =>
        RemoveDescriptorDeletes(s[e..], d);
        DeletesAfterMatch(s, d, e);
      case None =>
        RemoveDescriptorDeletes(s[1..], d);
        DeletesAfterHead(s, d);
    }
  }

  /** The step of `RemoveDescriptorDeletes` where a match is deleted. */
  lemma DeletesAfterMatch(s: string, d: Descriptor, e: nat)
    requires MatchEnd(s, d) == Some(e)
    requires IsSubsequence(RemoveDescriptor(s[e..], d), s[e..])
    requires multiset(RemoveDescriptor(s[e..], d)) <= multiset(s[e..])
    ensures IsSubsequence(RemoveDescriptor(s, d), s)
    ensures multiset(RemoveDescriptor(s, d)) <= multiset(s)
  {
    SubsequenceOfSuffix(RemoveDescriptor(s, d), s, e);
    assert s == s[..e] + s[e..];
  }

  /** The step of `RemoveDescriptorDeletes` where the head is kept. */
  lemma DeletesAfterHead(s: string, d: Descriptor)
    requires s != [] && MatchEnd(s, d) == None
    requires IsSubsequence(RemoveDescriptor(s[1..], d), s[1..])
    requires multiset(RemoveDescriptor(s[1..], d)) <= multiset(s[1..])
    ensures IsSubsequence(RemoveDescriptor(s, d), s)
    ensures multiset(RemoveDescriptor(s, d)) <= multiset(s)
  {
    assert s == s[..1] + s[1..];
    var r := RemoveDescriptor(s, d);
    assert r[0] == s[0] && r[1..] == RemoveDescriptor(s[1..], d);
  }

  /** No match starts at a character other than whitespace, so a pass keeps
      it and goes on after it. */
  lemma RemoveDescriptorKeepsHead(t: string, d: Descriptor)
    requires t != [] && !IsSpace(t[0])
    ensures RemoveDescriptor(t, d) == [t[0]] + RemoveDescriptor(t[1..], d)
  {
    assert MatchEnd(t, d) == None;
  }

  /** A pass leaves a string without whitespace unchanged. */
  lemma {:induction false} RemoveDescriptorNoSpace(s: string, d: Descriptor)
    requires NoSpace(s)
    ensures RemoveDescriptor(s, d) == s
  {
    if s != [] {
      RemoveDescriptorNoSpace(s[1..], d);
    }
  }

  /** A pass leaves a leading word alone and goes on with what follows it. */
  lemma {:induction false} RemoveDescriptorAfterWord(a: string, b: string, d: Descriptor)
    requires NoSpace(a)
    ensures RemoveDescriptor(a + b, d) == a + RemoveDescriptor(b, d)
  {
    if a == [] {
      assert a + b == b;
    } else {
      var t := a + b;
      assert t[0] == a[0] && t[1..] == a[1..] + b;
      RemoveDescriptorKeepsHead(t, d);
      assert NoSpace(a[1..]);
      RemoveDescriptorAfterWord(a[1..], b, d);
      calc {
        RemoveDescriptor(t, d);
        [a[0]] + RemoveDescriptor(a[1..] + b, d);
        [a[0]] + (a[1..] + RemoveDescriptor(b, d));
        { assert a == [a[0]] + a[1..]; }
        a + RemoveDescriptor(b, d);
      }
    }
  }

  /** All seven passes leave a string without whitespace unchanged. */
  lemma {:induction false} RemoveDescriptorsNoSpace(s: string, ds: seq<Descriptor>)
    requires NoSpace(s)
    ensures RemoveDescriptors(s, ds) == s
    decreases |ds|
  {
    if ds != [] {
      RemoveDescriptorNoSpace(s, ds[0]);
      RemoveDescriptorsNoSpace(s, ds[1..]);
    }
  }

  /** A pass leaves a word that breaks off from the stem at letter `m`, with
      one space before it, unchanged. */
  lemma NoMatchAfterSpace(c: string, d: Descriptor, m: nat)
    requires NoSpace(c) && m < |d.stem| && m < |c| && c[m] !in d.stem[m]
    ensures RemoveDescriptor(" " + c, d) == " " + c
  {
    var t := " " + c;
    assert t[1..] == c;
    assert SpaceRunEnd(t, 1) == 1;
    assert t[1 + m] == c[m];
    StemAtIff(t, 1, d.stem);
    assert MatchEnd(t, d) == None;
    RemoveDescriptorNoSpace(c, d);
  }

  /** A word that spells the stem, one ending letter and one letter more
      matches, with one space before it, up to its last letter. */
  lemma MatchUpToLastLetter(c: string, d: Descriptor)
    requires NoSpace(c) && |c| == |d.stem| + 2
    requires StemAt(" " + c, 1, d.stem) && c[|c| - 2] in d.suffix
    ensures MatchEnd(" " + c, d) == Some(|c|)
  {
    var t := " " + c;
    var n := |d.stem|;
    assert SpaceRunEnd(t, 1) == 1;
    assert SpaceRunEnd(t, n + 2) == n + 2;
    assert t[n + 1] == c[|c| - 2];
  }

  /** Such a word, with one space before it, is deleted but for its last
      letter: the pattern takes one ending letter only. */
  lemma LeavesLastLetter(c: string, d: Descriptor)
    requires NoSpace(c) && |c| == |d.stem| + 2
    requires StemAt(" " + c, 1, d.stem) && c[|c| - 2] in d.suffix
    ensures RemoveDescriptor(" " + c, d) == [c[|c| - 1]]
  {
    var t := " " + c;
    MatchUpToLastLetter(c, d);
    assert t[|c|..] == [c[|c| - 1]];
    RemoveDescriptorNoSpace([c[|c| - 1]], d);
  }

  /** A descriptor word after a word, with one space before it, is deleted
      together with that space: the stem alone or the stem and one ending
      letter. */
  lemma RemoveDescriptorDeletesWord(x: string, c: string, d: Descriptor)
    requires NoSpace(x) && NoSpace(c) && StemAt(" " + c, 1, d.stem)
    requires |c| == |d.stem| || (|c| == |d.stem| + 1 && c[|c| - 1] in d.suffix)
    ensures RemoveDescriptor(x + " " + c, d) == x
  {
    var t := " " + c;
    assert x + " " + c == x + t;
    RemoveDescriptorAfterWord(x, t, d);
    assert SpaceRunEnd(t, 1) == 1;
    assert |c| > |d.stem| ==> t[|t| - 1] == c[|c| - 1];
    assert SpaceRunEnd(t, |t|) == |t|;
    assert MatchEnd(t, d) == Some(|t|);
    assert x + [] == x;
  }

  /** A descriptor word after a space, its ending letter taken whenever it is
      there, and the whitespace after it. */
  predicate DescriptorWordThen(c: string, w: string, y: string, d: Descriptor)
  {
    d.stem != [] && NoSpace(c) && StemAt(" " + c, 1, d.stem)
    && (forall i :: 0 <= i < |w| ==> IsSpace(w[i]))
    && (y == [] || !IsSpace(y[0]))
    && ((|c| == |d.stem| + 1 && c[|c| - 1] in d.suffix)
        || (|c| == |d.stem| && (w + y == [] || (w + y)[0] !in d.suffix)))
  }

  /** A stem that matches at `j` still matches once more text follows. */
  lemma {:induction false} StemAtExtend(u: string, v: string, j: nat, stem: seq<string>)
    requires j <= |u| && StemAt(u, j, stem)
    ensures StemAt(u + v, j, stem)
    decreases |stem|
  {
    if stem != [] {
      assert (u + v)[j] == u[j];
      StemAtExtend(u, v, j + 1, stem[1..]);
    }
  }

  /** The match at such a word ends where the whitespace after it ends. */
  lemma MatchEndOfWord(c: string, w: string, y: string, d: Descriptor)
    requires DescriptorWordThen(c, w, y, d)
    ensures MatchEnd(" " + c + w + y, d) == Some(1 + |c| + |w|)
  {
    var u := " " + c;
    var t := u + (w + y);
    assert " " + c + w + y == t;
    var n := |d.stem|;
    var e := 1 + |c| + |w|;
    StemAtExtend(u, w + y, 1, d.stem);
    assert t[1] == c[0];
    SpaceRunEndAt(t, 0, 1);
    var k' := SuffixTaken(c, w, y, d);
    SpaceRunEndAt(t, k', e);
  }

  /** Where the optional ending of such a word leaves the match, and the
      whitespace after it. */
  lemma SuffixTaken(c: string, w: string, y: string, d: Descriptor) returns (k': nat)
    requires DescriptorWordThen(c, w, y, d)
    ensures var t := " " + c + (w + y); var k := 1 + |d.stem|;
            k <= |t| && k' == (if k < |t| && t[k] in d.suffix then k + 1 else k)
            && k' <= 1 + |c| + |w| <= |t|
            && (forall i :: k' <= i < 1 + |c| + |w| ==> IsSpace(t[i]))
            && (1 + |c| + |w| < |t| ==> !IsSpace(t[1 + |c| + |w|]))
  {
    var t := " " + c + (w + y);
    var n := |d.stem|;
    var e := 1 + |c| + |w|;
    assert forall i :: 1 + |c| <= i < e ==> t[i] == w[i - 1 - |c|];
    assert e < |t| ==> t[e] == y[0];
    if |c| == n + 1 {
      assert t[1 + n] == c[n];
      k' := n + 2;
    } else if w + y != [] {
      assert t[1 + n] == (w + y)[0];
      k' := n + 1;
    } else {
      k' := n + 1;
    }
  }

  /** A descriptor word in the middle of a string is deleted together with the
      whitespace on both sides of it, so the words around it are glued:
      `"ab кошка cd"` becomes `"abcd"`. */
  lemma RemoveDescriptorGluesWord(x: string, c: string, w: string, y: string, d: Descriptor)
    requires NoSpace(x) && DescriptorWordThen(c, w, y, d)
    ensures RemoveDescriptor(x + " " + c + w + y, d) == x + RemoveDescriptor(y, d)
  {
    var t := " " + c + w + y;
    assert x + " " + c + w + y == x + t;
    RemoveDescriptorAfterWord(x, t, d);
    MatchEndOfWord(c, w, y, d);
    assert t[1 + |c| + |w|..] == y;
  }

  /** The first three passes, then the others. */
  lemma RemoveDescriptorsFirstThree(s: string, ds: seq<Descriptor>)
    requires |ds| >= 3
    ensures RemoveDescriptors(s, ds)
         == RemoveDescriptors(RemoveDescriptor(RemoveDescriptor(RemoveDescriptor(s, ds[0]), ds[1]), ds[2]), ds[3..])
  {
    var s1 := RemoveDescriptor(s, ds[0]);
    var s2 := RemoveDescriptor(s1, ds[1]);
    RemoveDescriptorsHead(s, ds);
    RemoveDescriptorsHead(s1, ds[1..]);
    RemoveDescriptorsHead(s2, ds[2..]);
    assert ds[1..][0] == ds[1] && ds[1..][1..] == ds[2..];
    assert ds[2..][0] == ds[2] && ds[2..][1..] == ds[3..];
  }

  /** A pass leaves a whitespace-free prefix alone: a descriptor word is deleted
      only when whitespace precedes it, so one at the very start survives. */
  lemma {:induction false} RemoveDescriptorKeepsPrefix(s: string, d: Descriptor, n: nat)
    requires n <= |s| && NoSpace(s[..n])
    ensures n <= |RemoveDescriptor(s, d)| && RemoveDescriptor(s, d)[..n] == s[..n]
  {
    if n > 0 {
      assert s[0] == s[..n][0];
      assert s[1..][..n - 1] == s[1..n];
      RemoveDescriptorKeepsPrefix(s[1..], d, n - 1);
    }
  }

  /** All seven passes leave a whitespace-free prefix alone. */
  lemma {:induction false} RemoveDescriptorsKeepPrefix(s: string, ds: seq<Descriptor>, n: nat)
    requires n <= |s| && NoSpace(s[..n])
    ensures n <= |RemoveDescriptors(s, ds)| && RemoveDescriptors(s, ds)[..n] == s[..n]
    decreases |ds|
  {
    if ds != [] {
      var t := RemoveDescriptor(s, ds[0]);
      RemoveDescriptorKeepsPrefix(s, ds[0], n);
      RemoveDescriptorsKeepPrefix(t, ds[1..], n);
    }
  }

  // ---------------------------------------------------------------------------
  // Stage 3: overrides

  /** The hand-written overrides, in the order of the source table. */
  const SpecialCases: seq<(string, string)> := [
    ("мейн", "mejn"),
    ("персидск", "persidsk"),
    ("британск", "britansk"),
    ("сиамск", "siamsk"),
    ("ориентал", "oriental"),
    ("регдолл", "regdoll"),
    ("регдол", "regdoll"),
    ("рэгдолл", "regdoll")
  ]

  predicate SortedByKeyLength(cases: seq<(string, string)>) {
    forall i, j :: 0 <= i < j < |cases| ==> |cases[i].0| >= |cases[j].0|
  }

  /** Inserts `c` before the first entry whose key is not longer: `c` comes
      from earlier in the table than every entry of `sorted`, so among equal
      lengths it stays first. */
  function InsertByKeyLength(c: (string, string), sorted: seq<(string, string)>): seq<(string, string)> {
    if sorted == [] || |c.0| >= |sorted[0].0| then [c] + sorted
    else [sorted[0]] + InsertByKeyLength(c, sorted[1..])
  }

  /** `Object.entries(cases).sort((a, b) => b[0].length - a[0].length)`: a
      stable sort (insertion sort), longest key first. */
  function SortByKeyLength(cases: seq<(string, string)>): seq<(string, string)> {
    if cases == [] then [] else InsertByKeyLength(cases[0], SortByKeyLength(cases[1..]))
  }

  /** Insertion adds `c` and nothing else. */
  lemma {:induction false} InsertByKeyLengthAdds(c: (string, string), sorted: seq<(string, string)>)
    ensures multiset(InsertByKeyLength(c, sorted)) == multiset(sorted) + multiset{c}
  {
    if sorted != [] && |c.0| < |sorted[0].0| {
      InsertByKeyLengthAdds(c, sorted[1..]);
      assert sorted == [sorted[0]] + sorted[1..];
    }
  }

  /** Insertion keeps a sorted sequence sorted. */
  lemma {:induction false} InsertByKeyLengthSorted(c: (string, string), sorted: seq<(string, string)>)
    ensures InsertByKeyLength(c, sorted)[0] == c || (sorted != [] && InsertByKeyLength(c, sorted)[0] == sorted[0])
    ensures SortedByKeyLength(sorted) ==> SortedByKeyLength(InsertByKeyLength(c, sorted))
  {
    if sorted != [] && |c.0| < |sorted[0].0| {
      InsertByKeyLengthSorted(c, sorted[1..]);
      InsertByKeyLengthAdds(c, sorted[1..]);
    }
  }

  /** The sort is a permutation of the table, longest key first. */
  lemma {:induction false} SortByKeyLengthSorted(cases: seq<(string, string)>)
    ensures multiset(SortByKeyLength(cases)) == multiset(cases)
    ensures SortedByKeyLength(SortByKeyLength(cases))
  {
    if cases != [] {
      SortByKeyLengthSorted(cases[1..]);
      InsertByKeyLengthAdds(cases[0], SortByKeyLength(cases[1..]));
      InsertByKeyLengthSorted(cases[0], SortByKeyLength(cases[1..]));
      assert cases == [cases[0]] + cases[1..];
    }
  }

  /** The order the overrides are tried in: the three 8-letter keys, the two
      7-letter keys, the two 6-letter keys, then "мейн". */
  const SortedCases: seq<(string, string)> := [
    ("персидск", "persidsk"),
    ("британск", "britansk"),
    ("ориентал", "oriental"),
    ("регдолл", "regdoll"),
    ("рэгдолл", "regdoll"),
    ("сиамск", "siamsk"),
    ("регдол", "regdoll"),
    ("мейн", "mejn")
  ]

  /** The order above is what the stable sort makes of the table: longest key
      first, and keys of equal length in table order. */
  lemma SortedCasesIsSorted()
    ensures SortByKeyLength(SpecialCases) == SortedCases
  {
    var t := SpecialCases;
    assert |t[0].0| == 4 && |t[1].0| == 8 && |t[2].0| == 8 && |t[3].0| == 6;
    assert |t[4].0| == 8 && |t[5].0| == 7 && |t[6].0| == 6 && |t[7].0| == 7;
    SortTable(t);
  }

  /** The sort of any table whose keys have the lengths of the override
      table's, 4 8 8 6 8 7 6 7. */
  lemma SortTable(t: seq<(string, string)>)
    requires |t| == 8
    requires |t[0].0| == 4 && |t[1].0| == 8 && |t[2].0| == 8 && |t[3].0| == 6
    requires |t[4].0| == 8 && |t[5].0| == 7 && |t[6].0| == 6 && |t[7].0| == 7
    ensures SortByKeyLength(t) == [t[1], t[2], t[4], t[5], t[7], t[3], t[6], t[0]]
  {
    SortTableLast(t);
    assert t[2..][1..] == t[3..];
    assert SortByKeyLength(t[2..]) == [t[2], t[4], t[5], t[7], t[3], t[6]];
    assert t[1..][1..] == t[2..];
    assert SortByKeyLength(t[1..]) == [t[1], t[2], t[4], t[5], t[7], t[3], t[6]];
    SortTableFirst(t);
  }

  /** The last five entries of such a table, sorted. */
  lemma SortTableLast(t: seq<(string, string)>)
    requires |t| == 8
    requires |t[0].0| == 4 && |t[1].0| == 8 && |t[2].0| == 8 && |t[3].0| == 6
    requires |t[4].0| == 8 && |t[5].0| == 7 && |t[6].0| == 6 && |t[7].0| == 7
    ensures SortByKeyLength(t[3..]) == [t[4], t[5], t[7], t[3], t[6]]
  {
    assert t[7..][1..] == [];
    assert SortByKeyLength(t[7..]) == [t[7]];
    assert t[6..][1..] == t[7..];
    assert InsertByKeyLength(t[6], []) == [t[6]];
    assert [t[7]][1..] == [];
    assert SortByKeyLength(t[6..]) == [t[7], t[6]];
    assert t[5..][1..] == t[6..];
    assert SortByKeyLength(t[5..]) == [t[5], t[7], t[6]];
    assert t[4..][1..] == t[5..];
    assert SortByKeyLength(t[4..]) == [t[4], t[5], t[7], t[6]];
    assert t[3..][1..] == t[4..];
    var s4 := [t[4], t[5], t[7], t[6]];
    assert InsertByKeyLength(t[3], s4[3..]) == [t[3], t[6]];
    assert InsertByKeyLength(t[3], s4[2..]) == [t[7], t[3], t[6]];
    assert InsertByKeyLength(t[3], s4[1..]) == [t[5], t[7], t[3], t[6]];
  }

  /** The first entry of such a table, inserted last, goes to the end. */
  lemma SortTableFirst(t: seq<(string, string)>)
    requires |t| == 8
    requires |t[0].0| == 4 && |t[1].0| == 8 && |t[2].0| == 8 && |t[3].0| == 6
    requires |t[4].0| == 8 && |t[5].0| == 7 && |t[6].0| == 6 && |t[7].0| == 7
    ensures InsertByKeyLength(t[0], [t[1], t[2], t[4], t[5], t[7], t[3], t[6]])
         == [t[1], t[2], t[4], t[5], t[7], t[3], t[6], t[0]]
  {
    var s1 := [t[1], t[2], t[4], t[5], t[7], t[3], t[6]];
    assert InsertByKeyLength(t[0], s1[7..]) == [t[0]];
    assert InsertByKeyLength(t[0], s1[6..]) == [t[6], t[0]];
    assert InsertByKeyLength(t[0], s1[5..]) == [t[3], t[6], t[0]];
    assert InsertByKeyLength(t[0], s1[4..]) == [t[7], t[3], t[6], t[0]];
    assert InsertByKeyLength(t[0], s1[3..]) == [t[5], t[7], t[3], t[6], t[0]];
    assert InsertByKeyLength(t[0], s1[2..]) == [t[4], t[5], t[7], t[3], t[6], t[0]];
    assert InsertByKeyLength(t[0], s1[1..]) == [t[2], t[4], t[5], t[7], t[3], t[6], t[0]];
  }

  /** The first override at or after `i` whose key occurs in `s`. */
  function FirstKeyIn(s: string, cases: seq<(string, string)>, i: nat): (r: Option<nat>)
    requires i <= |cases|
    ensures r.Some? ==> i <= r.value < |cases| && Includes(s, cases[r.value].0)
                        && forall j :: i <= j < r.value ==> !Includes(s, cases[j].0)
    ensures r.None? ==> forall j :: i <= j < |cases| ==> !Includes(s, cases[j].0)
    decreases |cases| - i
  {
    if i == |cases| then None
    else if Includes(s, cases[i].0) then Some(i)
    else FirstKeyIn(s, cases, i + 1)
  }

  /** The override loop: the first key found has its first occurrence replaced
      by its value, whitespace is collapsed and trimmed, the result is cut
      down to the value when it is the value or starts with it and a space,
      and the loop stops. When no key occurs, `s` is returned as it is.
      Otherwise the result always holds the value, has single spaces between
      words and none at either end, and never starts with the value and a
      space. */
  function ApplyOverride(s: string): (r: string)
    ensures (forall j :: 0 <= j < |SortedCases| ==> !Includes(s, SortedCases[j].0)) ==> r == s
    ensures FirstKeyIn(s, SortedCases, 0).Some? ==>
              var key := SortedCases[FirstKeyIn(s, SortedCases, 0).value].0;
              var value := SortedCases[FirstKeyIn(s, SortedCases, 0).value].1;
              var t := Trim(ReplaceSpaceRuns(ReplaceFirst(s, key, value), " "));
              && ((t == value || StartsWith(t, value + " ")) ==> r == value)
              && (!(t == value || StartsWith(t, value + " ")) ==> r == t)
              && Includes(r, value)
              && SingleSpaced(r) && (r != [] ==> !IsSpace(r[0]) && !IsSpace(r[|r| - 1]))
              && !StartsWith(r, value + " ")
  {
    match FirstKeyIn(s, SortedCases, 0)
    case None => s
    case Some(i) =>
      var key := SortedCases[i].0;
      var value := SortedCases[i].1;
      var t := Trim(ReplaceSpaceRuns(ReplaceFirst(s, key, value), " "));
      OverrideValuesAreSlugs();
      OverrideKeepsValue(s, key, value);
      CutToValueShape(t, value);
      if t == value || StartsWith(t, value + " ") then value else t
  }

  /** Cutting the collapsed and trimmed text down to the value, or keeping it,
      gives a result that holds the value, is single-spaced and trimmed, and
      does not start with the value and a space. */
  lemma CutToValueShape(t: string, value: string)
    requires Includes(t, value) && value != [] && NoSpace(value)
    requires SingleSpaced(t) && (t != [] ==> !IsSpace(t[0]) && !IsSpace(t[|t| - 1]))
    ensures var r := if t == value || StartsWith(t, value + " ") then value else t;
            && Includes(r, value)
            && SingleSpaced(r) && (r != [] ==> !IsSpace(r[0]) && !IsSpace(r[|r| - 1]))
            && !StartsWith(r, value + " ")
  {
    assert OccursAt(value, value, 0);
    IncludesSlice(value, value, 0);
  }

  /** Replacing the key by a non-empty value without whitespace, collapsing
      whitespace and trimming keeps the value in one piece. */
  lemma OverrideKeepsValue(s: string, key: string, value: string)
    requires Includes(s, key) && value != [] && NoSpace(value)
    ensures var t := Trim(ReplaceSpaceRuns(ReplaceFirst(s, key, value), " "));
            Includes(t, value) && SingleSpaced(t) && (t != [] ==> !IsSpace(t[0]) && !IsSpace(t[|t| - 1]))
  {
    CollapsedTrim(ReplaceFirst(s, key, value));
    var p: nat :| && OccursAt(s, key, p)
                  && (forall j :: 0 <= j < p ==> !OccursAt(s, key, j))
                  && ReplaceFirst(s, key, value) == s[..p] + value + s[p + |key|..];
    ReplaceSpaceRunsKeepsWord(s[..p], value, s[p + |key|..], " ");
    TrimKeepsWord(ReplaceSpaceRuns(ReplaceFirst(s, key, value), " "), value,
                  |ReplaceSpaceRuns(s[..p], " ")|);
  }

  /** The key found is the first of the sorted table that occurs in `s`. */
  lemma FirstKeyAt(s: string, k: nat)
    requires k < |SortedCases| && Includes(s, SortedCases[k].0)
    requires forall j :: 0 <= j < k ==> !Includes(s, SortedCases[j].0)
    ensures FirstKeyIn(s, SortedCases, 0) == Some(k)
  {
  }

  /** The override loop once the first key found is known. */
  lemma OverrideWith(s: string, i: nat, key: string, value: string, t: string)
    requires FirstKeyIn(s, SortedCases, 0) == Some(i) && SortedCases[i] == (key, value)
    requires Trim(ReplaceSpaceRuns(ReplaceFirst(s, key, value), " ")) == t
    ensures ApplyOverride(s) == if t == value || StartsWith(t, value + " ") then value else t
  {
  }

  /** Longest key first: the override applied is one whose key occurs in `s`,
      and no longer key occurs in `s`. */
  lemma {:induction false} LongestKeyWins(s: string, i: nat)
    requires FirstKeyIn(s, SortedCases, 0) == Some(i)
    ensures Includes(s, SortedCases[i].0)
    ensures forall j :: (0 <= j < |SortedCases| && |SortedCases[j].0| > |SortedCases[i].0|)
                          ==> !Includes(s, SortedCases[j].0)
  {
    forall j | 0 <= j < |SortedCases| && |SortedCases[j].0| > |SortedCases[i].0|
      ensures !Includes(s, SortedCases[j].0)
    {
      assert !(i < j);
    }
  }

  /** `sortedCases.some(([key, value]) => normalized === value)`. An
      override value is already a slug of at most eight letters. */
  predicate IsOverrideValue(s: string)
    ensures IsOverrideValue(s) ==> IsSlug(s) && |s| <= 8
  {
    OverrideValuesAreSlugs();
    exists i :: 0 <= i < |SortedCases| && SortedCases[i].1 == s
  }

  // ---------------------------------------------------------------------------
  // Stage 4: transliteration

  /** The characters a slug is made of: `[a-z0-9-]`. */
  predicate IsSlugChar(c: char) {
    'a' <= c <= 'z' || '0' <= c <= '9' || c == '-'
  }

  /** The Cyrillic to Latin table. */
  const TranslitMap: map<char, string> := map[
    'а' := "a", 'б' := "b", 'в' := "v", 'г' := "g", 'д' := "d", 'е' := "e", 'ё' := "yo",
    'ж' := "zh", 'з' := "z", 'и' := "i", 'й' := "y", 'к' := "k", 'л' := "l", 'м' := "m",
    'н' := "n", 'о' := "o", 'п' := "p", 'р' := "r", 'с' := "s", 'т' := "t", 'у' := "u",
    'ф' := "f", 'х' := "h", 'ц' := "ts", 'ч' := "ch", 'ш' := "sh", 'щ' := "sch",
    'ъ' := "", 'ы' := "y", 'ь' := "", 'э' := "e", 'ю' := "yu", 'я' := "ya"
  ]

  /** One character: slug characters are kept, letters of the table become
      their entry, everything else (whitespace included) is dropped. */
  function TranslitChar(c: char): (r: string)
    ensures forall k :: 0 <= k < |r| ==> IsSlugChar(r[k])
    ensures IsSlugChar(c) ==> r == [c]
    ensures !IsSlugChar(c) && c !in TranslitMap ==> r == []
    ensures IsSpace(c) ==> r == []
    ensures c in TranslitMap ==> r == TranslitMap[c]
  {
    TableKeys(c);
    if IsSlugChar(c) then [c]
    else if c in TranslitMap then TranslitMap[c]
    else ""
  }

  /** The table's keys are the small Cyrillic letters а to я and ё, and its
      entries are made of Latin small letters. */
  lemma TableKeys(c: char)
    ensures c in TranslitMap ==> 'а' <= c <= 'ё'
    ensures c in TranslitMap ==> forall k :: 0 <= k < |TranslitMap[c]| ==> 'a' <= TranslitMap[c][k] <= 'z'
  {
  }

  /** `s.split('').map(…).join('')` */
  function Transliterate(s: string): (r: string)
    ensures forall k :: 0 <= k < |r| ==> IsSlugChar(r[k])
  {
    if s == [] then [] else TranslitChar(s[0]) + Transliterate(s[1..])
  }

  /** Transliteration works character by character. */
  lemma {:induction false} TransliterateAppend(a: string, b: string)
    ensures Transliterate(a + b) == Transliterate(a) + Transliterate(b)
  {
    if a == [] {
      assert a + b == b;
    } else {
      assert (a + b)[0] == a[0] && (a + b)[1..] == a[1..] + b;
      TransliterateAppend(a[1..], b);
    }
  }

  /** Transliterating letter by letter: when every character of `s` becomes
      the matching single character of `t`, `s` becomes `t`. */
  lemma {:induction false} TransliteratePointwise(s: string, t: string)
    requires |s| == |t|
    requires forall i :: 0 <= i < |s| ==> TranslitChar(s[i]) == [t[i]]
    ensures Transliterate(s) == t
  {
    if s != [] {
      TransliteratePointwise(s[1..], t[1..]);
      assert t == [t[0]] + t[1..];
    }
  }

  /** Whitespace is dropped: the words on either side are joined with
      nothing between them. */
  lemma TranslitDropsSpace(a: string, c: char, b: string)
    requires IsSpace(c)
    ensures Transliterate(a + [c] + b) == Transliterate(a) + Transliterate(b)
  {
    var ac := a + [c];
    TransliterateAppend(a, [c]);
    TranslitSpace(c);
    assert Transliterate(a) + [] == Transliterate(a);
    TransliterateAppend(ac, b);
  }

  lemma TranslitSpace(c: char)
    requires IsSpace(c)
    ensures Transliterate([c]) == []
  {
    assert [c][1..] == [];
  }

  /** A string already made of slug characters is left as it is. */
  lemma {:induction false} TransliterateKeepsSlugChars(s: string)
    requires forall k :: 0 <= k < |s| ==> IsSlugChar(s[k])
    ensures Transliterate(s) == s
  {
    if s != [] {
      TransliterateKeepsSlugChars(s[1..]);
    }
  }

  // ---------------------------------------------------------------------------
  // Stage 5: clean-up

  predicate NoDoubleDash(s: string) {
    forall i :: 0 <= i < |s| - 1 ==> !(s[i] == '-' && s[i + 1] == '-')
  }

  /** The shape every slug has: only `[a-z0-9-]`, no `--`, and no hyphen at
      either end. */
  predicate IsSlug(s: string) {
    && (forall i :: 0 <= i < |s| ==> IsSlugChar(s[i]))
    && NoDoubleDash(s)
    && (s != [] ==> s[0] != '-' && s[|s| - 1] != '-')
  }

  /** `s.replace(/[^a-z0-9-]/g, "")` */
  function KeepSlugChars(s: string): (r: string)
    ensures forall i :: 0 <= i < |r| ==> IsSlugChar(r[i])
    ensures (forall i :: 0 <= i < |s| ==> IsSlugChar(s[i])) ==> r == s
    ensures r == Filter(s, IsSlugChar)
  {
    if s == [] then []
    else (if IsSlugChar(s[0]) then [s[0]] else []) + KeepSlugChars(s[1..])
  }

  /** The end of the run of hyphens that starts at `i`. */
  function DashRunEnd(s: string, i: nat): (j: nat)
    requires i <= |s|
    ensures i <= j <= |s| && (j < |s| ==> s[j] != '-')
    ensures forall k :: i <= k < j ==> s[k] == '-'
    decreases |s| - i
  {
    if i < |s| && s[i] == '-' then DashRunEnd(s, i + 1) else i
  }

  predicate NotDash(c: char) {
    c != '-'
  }

  /** `s.replace(/-+/g, "-")`: only hyphens are deleted, so the result is a
      subsequence of `s`, and what remains has no `--`. */
  function CollapseDashes(s: string): (r: string)
    ensures NoDoubleDash(r)
    ensures IsSubsequence(r, s)
    ensures (s == []) == (r == []) && (r != [] ==> (r[0] == '-') == (s[0] == '-'))
    decreases |s|
  {
    if s == [] then []
    else if s[0] == '-' then
      var k := DashRunEnd(s, 0);
      var rest := s[k..];
      var r := "-" + CollapseDashes(rest);
      assert IsSubsequence(r, s) by {
        assert r[1..] == CollapseDashes(rest) && s[1..][k - 1..] == rest;
        SubsequenceOfSuffix(r[1..], s[1..], k - 1);
      }
      r
    else
      var r := [s[0]] + CollapseDashes(s[1..]);
      assert r[1..] == CollapseDashes(s[1..]);
      r
  }

  /** Collapsing keeps every character other than a hyphen, in order. */
  lemma {:induction false} CollapseDashesKeepsLetters(s: string)
    ensures Filter(CollapseDashes(s), NotDash) == Filter(s, NotDash)
    decreases |s|
  {
    if s != [] {
      var r := CollapseDashes(s);
      if s[0] == '-' {
        var k := DashRunEnd(s, 0);
        CollapseDashesKeepsLetters(s[k..]);
        assert r[1..] == CollapseDashes(s[k..]);
        FilterSkip(s, k, NotDash);
      } else {
        CollapseDashesKeepsLetters(s[1..]);
        assert r[1..] == CollapseDashes(s[1..]);
      }
    }
  }

  /** The hyphen run at `i` ends at `j` when `s[i..j]` is hyphens and the
      character at `j`, if any, is not. */
  lemma DashRunEndAt(s: string, i: nat, j: nat)
    requires i <= j <= |s|
    requires forall k :: i <= k < j ==> s[k] == '-'
    requires j < |s| ==> s[j] != '-'
    ensures DashRunEnd(s, i) == j
  {
  }

  /** Collapsing works run by run: a cut that splits no hyphen run lets both
      halves be collapsed apart. */
  lemma {:induction false} CollapseDashesAppend(a: string, b: string)
    requires a == [] || a[|a| - 1] != '-' || b == [] || b[0] != '-'
    ensures CollapseDashes(a + b) == CollapseDashes(a) + CollapseDashes(b)
    decreases |a|
  {
    if a == [] {
      assert a + b == b;
    } else if a[0] == '-' {
      var k := DashRunEnd(a, 0);
      DashRunAcross(a, b);
      CollapseDashesAppend(a[k..], b);
    } else {
      assert (a + b)[1..] == a[1..] + b;
      CollapseDashesAppend(a[1..], b);
    }
  }

  /** A hyphen run that starts `a` ends where it ends in `a` when the cut
      splits no run. */
  lemma DashRunAcross(a: string, b: string)
    requires a != [] && a[0] == '-'
    requires a[|a| - 1] != '-' || b == [] || b[0] != '-'
    ensures DashRunEnd(a + b, 0) == DashRunEnd(a, 0)
    ensures (a + b)[DashRunEnd(a, 0)..] == a[DashRunEnd(a, 0)..] + b
  {
    var k := DashRunEnd(a, 0);
    var ab := a + b;
    assert k == |a| ==> a[|a| - 1] == '-';
    assert forall m :: 0 <= m < k ==> ab[m] == a[m];
    assert k < |a| ==> ab[k] == a[k];
    assert k == |a| && b != [] ==> ab[k] == b[0];
    DashRunEndAt(ab, 0, k);
    SliceOfAppend(a, b, k);
  }


  /** A whole run of hyphens, however long, becomes one hyphen. */
  lemma CollapseDashesRun(a: string, w: string, b: string)
    requires a == [] || a[|a| - 1] != '-'
    requires w != [] && forall k :: 0 <= k < |w| ==> w[k] == '-'
    requires b == [] || b[0] != '-'
    ensures CollapseDashes(a + w + b) == CollapseDashes(a) + "-" + CollapseDashes(b)
  {
    AppendAssoc(a, w, b);
    CollapseDashesAppend(a, w + b);
    CollapseDashesLeadingRun(w, b);
    AppendAssoc(CollapseDashes(a), "-", CollapseDashes(b));
  }

  lemma CollapseDashesLeadingRun(w: string, b: string)
    requires w != [] && forall k :: 0 <= k < |w| ==> w[k] == '-'
    requires b == [] || b[0] != '-'
    ensures CollapseDashes(w + b) == "-" + CollapseDashes(b)
  {
    DashRunEndAt(w + b, 0, |w|);
    assert (w + b)[|w|..] == b;
  }

  /** Where the hyphen run that ends `s` starts. */
  function TrailingDashes(s: string): (i: nat)
    ensures i <= |s| && (i > 0 ==> s[i - 1] != '-')
    ensures forall k :: i <= k < |s| ==> s[k] == '-'
  {
    if s != [] && s[|s| - 1] == '-' then TrailingDashes(s[..|s| - 1]) else |s|
  }

  /** A doubled hyphen collapses as a single one does. */
  lemma CollapseDashesDouble(a: string, b: string)
    ensures CollapseDashes(a + "--" + b) == CollapseDashes(a + "-" + b)
  {
    var i := TrailingDashes(a);
    var e := DashRunEnd(b, 0);
    DashesAround(a, "--", b, i, e);
    DashesAround(a, "-", b, i, e);
    CollapseDashesRun(a[..i], a[i..] + "--" + b[..e], b[e..]);
    CollapseDashesRun(a[..i], a[i..] + "-" + b[..e], b[e..]);
  }

  /** Hyphens `m` between the hyphens that end `a` and those that start `b`
      join them into one run. */
  lemma DashesAround(a: string, m: string, b: string, i: nat, e: nat)
    requires i <= |a| && forall k :: i <= k < |a| ==> a[k] == '-'
    requires e <= |b| && forall k :: 0 <= k < e ==> b[k] == '-'
    requires m != [] && forall k :: 0 <= k < |m| ==> m[k] == '-'
    ensures var w := a[i..] + m + b[..e];
            && w != [] && (forall k :: 0 <= k < |w| ==> w[k] == '-')
            && a + m + b == a[..i] + w + b[e..]
  {
    var w := a[i..] + m + b[..e];
    assert forall k :: 0 <= k < |w| ==> w[k] == '-';
    assert a + m + b == a[..i] + w + b[e..];
  }

  /** A string without `--` is left as it is. */
  lemma {:induction false} CollapseDashesKeeps(s: string)
    requires NoDoubleDash(s)
    ensures CollapseDashes(s) == s
    decreases |s|
  {
    if s != [] {
      if s[0] == '-' {
        assert DashRunEnd(s, 0) == 1 by {
          assert |s| > 1 ==> s[1] != '-';
        }
      }
      CollapseDashesKeeps(s[1..]);
    }
  }

  /** `r` is `s` with at most one character cut at each end, and every
      character cut is a hyphen. */
  predicate EdgeDashesCut(s: string, r: string, i: nat) {
    && i <= 1 && i + |r| <= |s| <= i + |r| + 1 && r == s[i..i + |r|]
    && (forall k :: 0 <= k < i ==> s[k] == '-')
    && (forall k :: i + |r| <= k < |s| ==> s[k] == '-')
  }

  /** `s.replace(/^-|-$/g, "")`: one leading and one trailing hyphen go. */
  function StripEdgeDashes(s: string): (r: string)
    requires NoDoubleDash(s)
    ensures NoDoubleDash(r) && (r != [] ==> r[0] != '-' && r[|r| - 1] != '-')
    ensures forall i :: 0 <= i < |r| ==> r[i] in s
    ensures exists i: nat :: EdgeDashesCut(s, r, i)
  {
    var i := if s != [] && s[0] == '-' then 1 else 0;
    var a := s[i..];
    assert a != [] ==> a[0] != '-';
    var r := if a != [] && a[|a| - 1] == '-' then a[..|a| - 1] else a;
    assert EdgeDashesCut(s, r, i);
    r
  }

  /** The four clean-up passes. */
  function Cleanup(s: string): (r: string)
    ensures IsSlug(r)
  {
    var t := KeepSlugChars(ReplaceSpaceRuns(s, "-"));
    var c := CollapseDashes(t);
    var r := StripEdgeDashes(c);
    SubsequenceMembers(c, t);
    assert forall i :: 0 <= i < |r| ==> r[i] in t;
    r
  }

  /** A string that already is a slug passes the clean-up unchanged. */
  lemma CleanupKeepsSlug(s: string)
    requires IsSlug(s)
    ensures Cleanup(s) == s
  {
    assert NoSpace(s) by {
      forall i | 0 <= i < |s| ensures !IsSpace(s[i]) {
        assert IsSlugChar(s[i]);
      }
    }
    ReplaceSpaceRunsIdentity(s, "-");
    CollapseDashesKeeps(s);
  }

  // ---------------------------------------------------------------------------
  // The whole pipeline

  /** Stages 1 to 3: the string the transliteration step receives. */
  function Rewritten(name: string): string {
    ApplyOverride(RemoveDescriptors(Trim(ToLower(name)), Descriptors))
  }

  /** `normalizeBreed(name)`; whatever the name, the result is a slug. */
  function NormalizeBreed(name: string): (slug: string)
    ensures IsSlug(slug)
  {
    var rewritten := Rewritten(name);
    Cleanup(if IsOverrideValue(rewritten) then rewritten else Transliterate(rewritten))
  }

  /** Every override value is already a slug. */
  lemma OverrideValuesAreSlugs()
    ensures forall i :: 0 <= i < |SortedCases| ==> IsSlug(SortedCases[i].1)
    ensures forall i :: 0 <= i < |SortedCases| ==> SortedCases[i].1 != [] && NoSpace(SortedCases[i].1)
  {
    forall i | 0 <= i < |SortedCases|
      ensures IsSlug(SortedCases[i].1) && SortedCases[i].1 != [] && NoSpace(SortedCases[i].1)
    {
      var v := SortedCases[i].1;
      assert v != [] && forall k :: 0 <= k < |v| ==> 'a' <= v[k] <= 'z';
      LatinWord(v);
    }
  }

  lemma LatinWord(v: string)
    requires forall k :: 0 <= k < |v| ==> 'a' <= v[k] <= 'z'
    ensures IsSlug(v) && NoSpace(v)
  {
  }

  /** When the overrides leave exactly an override value, that value is the
      slug: transliteration is skipped and the clean-up changes nothing. */
  lemma {:induction false} NormalizeOverrideValue(name: string)
    requires IsOverrideValue(Rewritten(name))
    ensures NormalizeBreed(name) == Rewritten(name)
  {
    OverrideValuesAreSlugs();
    CleanupKeepsSlug(Rewritten(name));
  }
}
