/**
  Worked examples of `normalizeBreed`: the breed names whose slugs the
  overrides were written for, and the way the coat pattern treats
  "короткошёрстная". Each concrete fact is its own small lemma; the general
  lemmas put the stages together.
 */
module SlugExamples {
  import opened JsText
  import opened Slug

  // ---------------------------------------------------------------------------
  // Putting the stages together

  /** The pipeline, given what each stage makes of the name. */
  lemma Pipeline(name: string, lowered: string, stripped: string, rewritten: string, slug: string)
    requires Trim(ToLower(name)) == lowered
    requires RemoveDescriptors(lowered, Descriptors) == stripped
    requires ApplyOverride(stripped) == rewritten
    requires Cleanup(if IsOverrideValue(rewritten) then rewritten else Transliterate(rewritten)) == slug
    ensures NormalizeBreed(name) == slug
  {
  }

  /** A one-word name: lowering leaves nothing to trim and no descriptor to
      remove. */
  lemma OneWord(name: string, lowered: string)
    requires ToLower(name) == lowered && NoSpace(lowered)
    ensures Trim(ToLower(name)) == lowered
    ensures RemoveDescriptors(lowered, Descriptors) == lowered
  {
    TrimNoSpace(lowered);
    RemoveDescriptorsNoSpace(lowered, Descriptors);
  }

  /** An override whose replacement leaves more than its value. */
  lemma OverrideKept(s: string, i: nat, key: string, value: string, r: string)
    requires FirstKeyIn(s, SortedCases, 0) == Some(i) && SortedCases[i] == (key, value)
    requires ReplaceFirst(s, key, value) == r && NoSpace(r)
    requires !(r == value || StartsWith(r, value + " "))
    ensures ApplyOverride(s) == r
  {
    ReplaceSpaceRunsIdentity(r, " ");
    TrimNoSpace(r);
    OverrideWith(s, i, key, value, r);
  }

  /** An override whose replacement is exactly its value. */
  lemma OverrideToValue(s: string, i: nat, key: string, value: string)
    requires FirstKeyIn(s, SortedCases, 0) == Some(i) && SortedCases[i] == (key, value)
    requires ReplaceFirst(s, key, value) == value && NoSpace(value)
    ensures ApplyOverride(s) == value
  {
    ReplaceSpaceRunsIdentity(value, " ");
    TrimNoSpace(value);
    OverrideWith(s, i, key, value, value);
  }

  /** Lowering a string split in two. */
  lemma LowerConcat(s: string, a: string, b: string, ra: string, rb: string, r: string)
    requires s == a + b && ToLower(a) == ra && ToLower(b) == rb && ra + rb == r
    ensures ToLower(s) == r
  {
    ToLowerAppend(a, b);
  }

  /** Transliterating a string split in two. */
  lemma TranslitConcat(s: string, a: string, b: string, ra: string, rb: string, r: string)
    requires s == a + b && Transliterate(a) == ra && Transliterate(b) == rb && ra + rb == r
    ensures Transliterate(s) == r
  {
    TransliterateAppend(a, b);
  }

  /** The last two stages for a string that is not an override value. */
  lemma Transliterated(r: string, slug: string)
    requires !IsOverrideValue(r) && Transliterate(r) == slug && IsSlug(slug)
    ensures Cleanup(if IsOverrideValue(r) then r else Transliterate(r)) == slug
  {
    CleanupKeepsSlug(slug);
  }

  /** The last two stages for an override value. */
  lemma ValueKept(v: string)
    requires IsOverrideValue(v)
    ensures Cleanup(if IsOverrideValue(v) then v else Transliterate(v)) == v
  {
    OverrideValuesAreSlugs();
    CleanupKeepsSlug(v);
  }

  // ---------------------------------------------------------------------------
  // "Мейн-кун": the override "мейн" rewrites the first word only, and the
  // hyphen survives transliteration.

  lemma MaineCoonSplit()
    ensures "Мейн-кун" == "М" + "ейн-кун"
  {
  }

  lemma MaineCoonHeadLower()
    ensures ToLower("М") == "м"
  {
  }

  lemma MaineCoonTailLower()
    ensures ToLower("ейн-кун") == "ейн-кун"
  {
    ToLowerUnchanged("ейн-кун");
  }

  lemma MaineCoonJoin()
    ensures "м" + "ейн-кун" == "мейн-кун"
  {
  }

  lemma MaineCoonLower()
    ensures ToLower("Мейн-кун") == "мейн-кун"
  {
    MaineCoonSplit();
    MaineCoonHeadLower();
    MaineCoonTailLower();
    MaineCoonJoin();
    LowerConcat("Мейн-кун", "М", "ейн-кун", "м", "ейн-кун", "мейн-кун");
  }

  lemma MaineCoonNoSpace()
    ensures NoSpace("мейн-кун")
  {
  }

  lemma MaineCoonMisses()
    ensures forall j :: 0 <= j < 7 ==> !Includes("мейн-кун", SortedCases[j].0)
  {
    var s := "мейн-кун";
    forall j | 0 <= j < 7
      ensures !Includes(s, SortedCases[j].0)
    {
      if j == 0 { NotIncludesMissingChar(s, "персидск", 'п'); }
      else if j == 1 { NotIncludesMissingChar(s, "британск", 'б'); }
      else if j == 2 { NotIncludesMissingChar(s, "ориентал", 'о'); }
      else if j == 3 { NotIncludesMissingChar(s, "регдолл", 'р'); }
      else if j == 4 { NotIncludesMissingChar(s, "рэгдолл", 'р'); }
      else if j == 5 { NotIncludesMissingChar(s, "сиамск", 'с'); }
      else { NotIncludesMissingChar(s, "регдол", 'р'); }
    }
  }

  lemma MaineCoonKey()
    ensures FirstKeyIn("мейн-кун", SortedCases, 0) == Some(7)
  {
    MaineCoonMisses();
    assert SortedCases[7].0 == "мейн";
    IncludesSlice("мейн-кун", "мейн", 0);
    FirstKeyAt("мейн-кун", 7);
  }

  lemma MaineCoonEntry()
    ensures SortedCases[7] == ("мейн", "mejn")
  {
  }

  lemma MaineCoonReplace()
    ensures ReplaceFirst("мейн-кун", "мейн", "mejn") == "mejn-кун"
  {
    assert IndexOf("мейн-кун", "мейн", 0) == Some(0);
  }

  lemma MaineCoonReplacedNoSpace()
    ensures NoSpace("mejn-кун")
  {
  }

  lemma MaineCoonNotValuePrefix()
    ensures !("mejn-кун" == "mejn" || StartsWith("mejn-кун", "mejn "))
  {
    assert "mejn-кун"[4] != "mejn "[4];
  }

  lemma MaineCoonNotValue()
    ensures !IsOverrideValue("mejn-кун")
  {
  }

  lemma MaineCoonTranslitSplit()
    ensures "mejn-кун" == "mejn-" + "кун"
  {
  }

  lemma MejnTranslit()
    ensures Transliterate("mejn-") == "mejn-"
  {
    TransliterateKeepsSlugChars("mejn-");
  }

  lemma CoonTranslit()
    ensures Transliterate("кун") == "kun"
  {
  }

  lemma MaineCoonTranslitJoin()
    ensures "mejn-" + "kun" == "mejn-kun"
  {
  }

  lemma MaineCoonTranslit()
    ensures Transliterate("mejn-кун") == "mejn-kun"
  {
    MaineCoonTranslitSplit();
    MejnTranslit();
    CoonTranslit();
    MaineCoonTranslitJoin();
    TranslitConcat("mejn-кун", "mejn-", "кун", "mejn-", "kun", "mejn-kun");
  }

  lemma MaineCoonIsSlug()
    ensures IsSlug("mejn-kun")
  {
  }

  lemma MaineCoon()
    ensures NormalizeBreed("Мейн-кун") == "mejn-kun"
  {
    MaineCoonLower();
    MaineCoonNoSpace();
    OneWord("Мейн-кун", "мейн-кун");
    MaineCoonKey();
    MaineCoonEntry();
    MaineCoonReplace();
    MaineCoonReplacedNoSpace();
    MaineCoonNotValuePrefix();
    OverrideKept("мейн-кун", 7, "мейн", "mejn", "mejn-кун");
    MaineCoonNotValue();
    MaineCoonTranslit();
    MaineCoonIsSlug();
    Transliterated("mejn-кун", "mejn-kun");
    Pipeline("Мейн-кун", "мейн-кун", "мейн-кун", "mejn-кун", "mejn-kun");
  }

  // ---------------------------------------------------------------------------
  // "Рэгдолл" and "Регдолл": each is rewritten by its own 7-letter key, not by
  // the 6-letter "регдол", to the value "regdoll", which is then taken as the
  // slug without transliteration.

  lemma RagdollIsValue()
    ensures IsOverrideValue("regdoll")
  {
    assert SortedCases[3].1 == "regdoll";
  }

  lemma RagdollValueNoSpace()
    ensures NoSpace("regdoll")
  {
  }

  lemma RagdollReplace(key: string)
    requires key == "регдолл" || key == "рэгдолл"
    ensures ReplaceFirst(key, key, "regdoll") == "regdoll"
  {
    assert IndexOf(key, key, 0) == Some(0);
  }

  lemma RagdollESplit()
    ensures "Рэгдолл" == "Р" + "эгдолл"
  {
  }

  lemma RagdollEHeadLower()
    ensures ToLower("Р") == "р"
  {
  }

  lemma RagdollETailLower()
    ensures ToLower("эгдолл") == "эгдолл"
  {
    ToLowerUnchanged("эгдолл");
  }

  lemma RagdollEJoin()
    ensures "р" + "эгдолл" == "рэгдолл"
  {
  }

  lemma RagdollELower()
    ensures ToLower("Рэгдолл") == "рэгдолл"
  {
    RagdollESplit();
    RagdollEHeadLower();
    RagdollETailLower();
    RagdollEJoin();
    LowerConcat("Рэгдолл", "Р", "эгдолл", "р", "эгдолл", "рэгдолл");
  }

  lemma RagdollENoSpace()
    ensures NoSpace("рэгдолл")
  {
  }

  lemma RagdollEMisses()
    ensures forall j :: 0 <= j < 4 ==> !Includes("рэгдолл", SortedCases[j].0)
  {
    var s := "рэгдолл";
    forall j | 0 <= j < 4
      ensures !Includes(s, SortedCases[j].0)
    {
      if j == 0 { NotIncludesMissingChar(s, "персидск", 'п'); }
      else if j == 1 { NotIncludesMissingChar(s, "британск", 'б'); }
      else if j == 2 { NotIncludesMissingChar(s, "ориентал", 'и'); }
      else { NotIncludesMissingChar(s, "регдолл", 'е'); }
    }
  }

  lemma RagdollEKey()
    ensures FirstKeyIn("рэгдолл", SortedCases, 0) == Some(4)
  {
    RagdollEMisses();
    assert SortedCases[4].0 == "рэгдолл";
    IncludesSlice("рэгдолл", "рэгдолл", 0);
    FirstKeyAt("рэгдолл", 4);
  }

  lemma RagdollEEntry()
    ensures SortedCases[4] == ("рэгдолл", "regdoll")
  {
  }

  lemma RagdollE()
    ensures NormalizeBreed("Рэгдолл") == "regdoll"
  {
    RagdollELower();
    RagdollENoSpace();
    OneWord("Рэгдолл", "рэгдолл");
    RagdollEKey();
    RagdollEEntry();
    RagdollReplace("рэгдолл");
    RagdollValueNoSpace();
    OverrideToValue("рэгдолл", 4, "рэгдолл", "regdoll");
    RagdollIsValue();
    ValueKept("regdoll");
    Pipeline("Рэгдолл", "рэгдолл", "рэгдолл", "regdoll", "regdoll");
  }

  lemma RagdollSplit()
    ensures "Регдолл" == "Р" + "егдолл"
  {
  }

  lemma RagdollHeadLower()
    ensures ToLower("Р") == "р"
  {
  }

  lemma RagdollTailLower()
    ensures ToLower("егдолл") == "егдолл"
  {
    ToLowerUnchanged("егдолл");
  }

  lemma RagdollJoin()
    ensures "р" + "егдолл" == "регдолл"
  {
  }

  lemma RagdollLower()
    ensures ToLower("Регдолл") == "регдолл"
  {
    RagdollSplit();
    RagdollHeadLower();
    RagdollTailLower();
    RagdollJoin();
    LowerConcat("Регдолл", "Р", "егдолл", "р", "егдолл", "регдолл");
  }

  lemma RagdollNoSpace()
    ensures NoSpace("регдолл")
  {
  }

  lemma RagdollMisses()
    ensures forall j :: 0 <= j < 3 ==> !Includes("регдолл", SortedCases[j].0)
  {
    var s := "регдолл";
    forall j | 0 <= j < 3
      ensures !Includes(s, SortedCases[j].0)
    {
      if j == 0 { NotIncludesMissingChar(s, "персидск", 'п'); }
      else if j == 1 { NotIncludesMissingChar(s, "британск", 'б'); }
      else { NotIncludesMissingChar(s, "ориентал", 'и'); }
    }
  }

  lemma RagdollKey()
    ensures FirstKeyIn("регдолл", SortedCases, 0) == Some(3)
  {
    RagdollMisses();
    assert SortedCases[3].0 == "регдолл";
    IncludesSlice("регдолл", "регдолл", 0);
    FirstKeyAt("регдолл", 3);
  }

  lemma RagdollEntry()
    ensures SortedCases[3] == ("регдолл", "regdoll")
  {
  }

  lemma Ragdoll()
    ensures NormalizeBreed("Регдолл") == "regdoll"
  {
    RagdollLower();
    RagdollNoSpace();
    OneWord("Регдолл", "регдолл");
    RagdollKey();
    RagdollEntry();
    RagdollReplace("регдолл");
    RagdollValueNoSpace();
    OverrideToValue("регдолл", 3, "регдолл", "regdoll");
    RagdollIsValue();
    ValueKept("regdoll");
    Pipeline("Регдолл", "регдолл", "регдолл", "regdoll", "regdoll");
  }

  // ---------------------------------------------------------------------------
  // The short-hair coat word: `короткош[ёе]рстн[аяуюойые]?` takes one ending
  // letter only, so a two-letter ending leaves its last letter behind, glued
  // to the word before it. "Британская короткошёрстная" becomes
  // "britanskayaya".

  /** What a coat word `c` is: it spells the coat stem, one ending letter and
      one letter more, and its third letter rules out the "кошк" and "кот"
      stems. */
  predicate CoatWord(c: string) {
    && NoSpace(c) && |c| == |ShortHair.stem| + 2 && c[2] == 'р'
    && StemAt(" " + c, 1, ShortHair.stem)
    && c[|c| - 2] in ShortHair.suffix
  }

  /** The "кошк" pass finds no match in " " + `c` when the third letter of
      `c` is "р". */
  lemma NotCatFemale(c: string)
    requires NoSpace(c) && |c| > 2 && c[2] == 'р'
    ensures RemoveDescriptor(" " + c, CatFemale) == " " + c
  {
    NoMatchAfterSpace(c, CatFemale, 2);
  }

  /** The "кот" pass finds no match in " " + `c` when the third letter of `c`
      is "р". */
  lemma NotCatMale(c: string)
    requires NoSpace(c) && |c| > 2 && c[2] == 'р'
    ensures RemoveDescriptor(" " + c, CatMale) == " " + c
  {
    NoMatchAfterSpace(c, CatMale, 2);
  }

  /** The coat pass deletes all of " " + `c` but its last letter. */
  lemma CoatRemoved(c: string)
    requires CoatWord(c)
    ensures RemoveDescriptor(" " + c, ShortHair) == [c[|c| - 1]]
  {
    LeavesLastLetter(c, ShortHair);
  }

  /** The first three passes after a word without whitespace. */
  lemma CoatPass(x: string, c: string, k: nat)
    requires NoSpace(x) && CoatWord(c) && k < 3
    ensures RemoveDescriptor(x + " " + c, Descriptors[k])
         == if k < 2 then x + " " + c else x + [c[|c| - 1]]
  {
    var t := " " + c;
    assert x + " " + c == x + t;
    RemoveDescriptorAfterWord(x, t, Descriptors[k]);
    if k == 0 {
      NotCatFemale(c);
    } else if k == 1 {
      NotCatMale(c);
    } else {
      CoatRemoved(c);
    }
  }

  /** After a lower-case word without whitespace, the seven passes turn such a
      coat word into its last letter. */
  lemma CoatStripped(x: string, c: string)
    requires NoSpace(x) && CoatWord(c)
    ensures RemoveDescriptors(x + " " + c, Descriptors) == x + [c[|c| - 1]]
  {
    RemoveDescriptorsFirstThree(x + " " + c, Descriptors);
    CoatPass(x, c, 0);
    CoatPass(x, c, 1);
    CoatPass(x, c, 2);
    LastLetterNoSpace(x, c);
    RemoveDescriptorsNoSpace(x + [c[|c| - 1]], Descriptors[3..]);
  }

  /** The word with the coat word's last letter glued to it has no
      whitespace. */
  lemma LastLetterNoSpace(x: string, c: string)
    requires NoSpace(x) && CoatWord(c)
    ensures NoSpace(x + [c[|c| - 1]])
  {
    assert NoSpace([c[|c| - 1]]) by {
      assert !IsSpace(c[|c| - 1]);
    }
    NoSpaceAppend(x, [c[|c| - 1]]);
  }

  lemma LowerSpaced(w: string, c: string)
    requires ToLower(c) == c
    ensures ToLower(w + " " + c) == ToLower(w) + " " + c
  {
    assert w + " " + c == w + (" " + c);
    ToLowerAppend(w, " " + c);
    ToLowerAppend(" ", c);
    LowerSpace();
  }

  lemma LowerSpace()
    ensures ToLower(" ") == " "
  {
    assert ToLower(" ") == LowerChar(' ') + ToLower([]);
  }

  lemma LowerLetter(w: string, ch: char)
    requires '\U{0430}' <= ch <= '\U{045F}'
    ensures ToLower(w + [ch]) == ToLower(w) + [ch]
  {
    ToLowerAppend(w, [ch]);
    assert ToLower([ch]) == LowerChar(ch) + ToLower([]);
  }

  lemma TrimSpaced(x: string, c: string)
    requires x != [] && !IsSpace(x[0]) && c != [] && !IsSpace(c[|c| - 1])
    ensures Trim(x + " " + c) == x + " " + c
  {
    assert (x + " " + c)[0] == x[0] && (x + " " + c)[|x + " " + c| - 1] == c[|c| - 1];
    TrimUntouched(x + " " + c);
  }

  /** The first two stages on a word followed by a coat word. */
  lemma CoatStagesSpaced(w: string, c: string)
    requires w != [] && NoSpace(w) && CoatWord(c) && ToLower(c) == c
    ensures RemoveDescriptors(Trim(ToLower(w + " " + c)), Descriptors) == ToLower(w) + [c[|c| - 1]]
  {
    var x := ToLower(w);
    ToLowerNoSpace(w);
    LowerSpaced(w, c);
    TrimSpaced(x, c);
    CoatStripped(x, c);
  }

  /** The first two stages on a word followed by one lower-case letter. */
  lemma StagesWithLetter(w: string, ch: char)
    requires NoSpace(w) && '\U{0430}' <= ch <= '\U{045F}'
    ensures RemoveDescriptors(Trim(ToLower(w + [ch])), Descriptors) == ToLower(w) + [ch]
  {
    var x := ToLower(w);
    assert NoSpace([ch]);
    ToLowerNoSpace(w);
    NoSpaceAppend(x, [ch]);
    LowerLetter(w, ch);
    TrimNoSpace(x + [ch]);
    RemoveDescriptorsNoSpace(x + [ch], Descriptors);
  }

  /** A word followed by a coat word is normalized as the word followed by
      the coat word's last letter alone. */
  lemma CoatLeavesLastLetter(w: string, c: string)
    requires w != [] && NoSpace(w) && CoatWord(c)
    requires ToLower(c) == c && '\U{0430}' <= c[|c| - 1] <= '\U{045F}'
    ensures NormalizeBreed(w + " " + c) == NormalizeBreed(w + [c[|c| - 1]])
  {
    CoatStagesSpaced(w, c);
    StagesWithLetter(w, c[|c| - 1]);
    SameRewritten(w + " " + c, w + [c[|c| - 1]]);
  }

  /** Names whose first two stages agree are normalized alike. */
  lemma SameRewritten(a: string, b: string)
    requires RemoveDescriptors(Trim(ToLower(a)), Descriptors) == RemoveDescriptors(Trim(ToLower(b)), Descriptors)
    ensures NormalizeBreed(a) == NormalizeBreed(b)
  {
  }

  // ---------------------------------------------------------------------------
  // "Британская короткошёрстная": the coat word leaves its last letter "я"
  // glued to "британская", the override "британск" rewrites the stem, and the
  // rest is transliterated.

  /** Lower-case Cyrillic text is its own lower case. */
  lemma LowerCyrillic(s: string)
    requires forall i :: 0 <= i < |s| ==> '\U{0430}' <= s[i] <= '\U{045F}'
    ensures ToLower(s) == s
  {
    ToLowerUnchanged(s);
  }

  lemma BritishSplit()
    ensures "Британская короткошёрстная" == "Британская" + " " + "короткошёрстная"
  {
  }

  lemma ShortHairLower()
    ensures ToLower("короткошёрстная") == "короткошёрстная"
  {
    LowerCyrillic("короткошёрстная");
  }

  /** A 13-letter stem matches after one leading character when each letter
      is in its class. */
  lemma StemAfterFirst(t: string, stem: seq<string>)
    requires |t| == 16 && |stem| == 13
    requires forall k :: 0 <= k < 13 ==> t[1 + k] in stem[k]
    ensures StemAt(t, 1, stem)
  {
    StemAtIff(t, 1, stem);
  }

  lemma ShortHairStemLetters()
    ensures ShortHair.stem == ["к", "о", "р", "о", "т", "к", "о", "ш", "ёе", "р", "с", "т", "н"]
  {
  }

  lemma ShortHairStem()
    ensures StemAt(" короткошёрстная", 1, ShortHair.stem)
  {
    var t := " короткошёрстная";
    var stem := ["к", "о", "р", "о", "т", "к", "о", "ш", "ёе", "р", "с", "т", "н"];
    ShortHairStemLetters();
    assert forall k :: 0 <= k < 13 ==> t[1 + k] in stem[k];
    StemAfterFirst(t, stem);
  }

  lemma ShortHairNoSpace()
    ensures NoSpace("короткошёрстная")
  {
  }

  lemma ShortHairSpaced()
    ensures " " + "короткошёрстная" == " короткошёрстная"
  {
  }

  lemma ShortHairLetters()
    ensures |"короткошёрстная"| == |ShortHair.stem| + 2
    ensures "короткошёрстная"[2] == 'р' && "короткошёрстная"[13] in ShortHair.suffix
    ensures "короткошёрстная"[14] == 'я'
  {
  }

  lemma ShortHairWord()
    ensures CoatWord("короткошёрстная")
  {
    ShortHairNoSpace();
    ShortHairLetters();
    ShortHairStem();
    ShortHairSpaced();
  }

  /** `CoatLeavesLastLetter`, with the two names given. */
  lemma GluedName(name: string, w: string, c: string, glued: string)
    requires w != [] && NoSpace(w) && CoatWord(c)
    requires ToLower(c) == c && '\U{0430}' <= c[|c| - 1] <= '\U{045F}'
    requires name == w + " " + c && glued == w + [c[|c| - 1]]
    ensures NormalizeBreed(name) == NormalizeBreed(glued)
  {
    CoatLeavesLastLetter(w, c);
  }

  lemma BritishNoSpace()
    ensures NoSpace("Британская")
  {
  }

  lemma BritishGlue()
    ensures "Британская" + ['я'] == "Британскаяя"
  {
  }

  lemma BritishGlued()
    ensures NormalizeBreed("Британская короткошёрстная") == NormalizeBreed("Британскаяя")
  {
    BritishSplit();
    BritishNoSpace();
    ShortHairWord();
    ShortHairLower();
    ShortHairLetters();
    BritishGlue();
    GluedName("Британская короткошёрстная", "Британская", "короткошёрстная", "Британскаяя");
  }

  lemma BritishLowerSplit()
    ensures "Британскаяя" == "Б" + "ританскаяя"
  {
  }

  lemma BritishHeadLower()
    ensures ToLower("Б") == "б"
  {
  }

  lemma BritishTailLower()
    ensures ToLower("ританскаяя") == "ританскаяя"
  {
    LowerCyrillic("ританскаяя");
  }

  lemma BritishLowerJoin()
    ensures "б" + "ританскаяя" == "британскаяя"
  {
  }

  lemma BritishLower()
    ensures ToLower("Британскаяя") == "британскаяя"
  {
    BritishLowerSplit();
    BritishHeadLower();
    BritishTailLower();
    BritishLowerJoin();
    LowerConcat("Британскаяя", "Б", "ританскаяя", "б", "ританскаяя", "британскаяя");
  }

  lemma BritishKey()
    ensures FirstKeyIn("британскаяя", SortedCases, 0) == Some(1)
  {
    var s := "британскаяя";
    NotIncludesMissingChar(s, "персидск", 'п');
    assert SortedCases[1].0 == "британск";
    assert s[0..8] == "британск";
    IncludesSlice(s, "британск", 0);
    FirstKeyAt(s, 1);
  }

  lemma BritishReplace()
    ensures ReplaceFirst("британскаяя", "британск", "britansk") == "britanskаяя"
  {
    assert "британскаяя"[0..8] == "британск";
    assert IndexOf("британскаяя", "британск", 0) == Some(0);
  }

  lemma BritishNotValuePrefix()
    ensures !("britanskаяя" == "britansk" || StartsWith("britanskаяя", "britansk "))
  {
    assert "britanskаяя"[8] != "britansk "[8];
  }

  lemma BritishNotValue()
    ensures !IsOverrideValue("britanskаяя")
  {
  }

  lemma EndingTranslit()
    ensures Transliterate("аяя") == "ayaya"
  {
  }

  lemma BritishTranslitSplit()
    ensures "britanskаяя" == "britansk" + "аяя"
  {
  }

  lemma BritanskTranslit()
    ensures Transliterate("britansk") == "britansk"
  {
    TransliterateKeepsSlugChars("britansk");
  }

  lemma BritishTranslitJoin()
    ensures "britansk" + "ayaya" == "britanskayaya"
  {
  }

  lemma BritishTranslit()
    ensures Transliterate("britanskаяя") == "britanskayaya"
  {
    BritishTranslitSplit();
    BritanskTranslit();
    EndingTranslit();
    BritishTranslitJoin();
    TranslitConcat("britanskаяя", "britansk", "аяя", "britansk", "ayaya", "britanskayaya");
  }

  lemma BritishIsSlug()
    ensures IsSlug("britanskayaya")
  {
  }

  lemma BritishLowerNoSpace()
    ensures NoSpace("британскаяя")
  {
  }

  lemma BritishReplacedNoSpace()
    ensures NoSpace("britanskаяя")
  {
  }

  lemma BritishEntry()
    ensures SortedCases[1] == ("британск", "britansk")
  {
  }

  lemma BritishGluedSlug()
    ensures NormalizeBreed("Британскаяя") == "britanskayaya"
  {
    BritishLower();
    BritishLowerNoSpace();
    OneWord("Британскаяя", "британскаяя");
    BritishKey();
    BritishEntry();
    BritishReplace();
    BritishReplacedNoSpace();
    BritishNotValuePrefix();
    OverrideKept("британскаяя", 1, "британск", "britansk", "britanskаяя");
    BritishNotValue();
    BritishTranslit();
    BritishIsSlug();
    Transliterated("britanskаяя", "britanskayaya");
    Pipeline("Британскаяя", "британскаяя", "британскаяя", "britanskаяя", "britanskayaya");
  }

  /** The coat word's second ending letter survives the descriptor pass and
      is transliterated, doubling the "ya" of "британская". */
  lemma BritishShortHair()
    ensures NormalizeBreed("Британская короткошёрстная") == "britanskayaya"
  {
    BritishGlued();
    BritishGluedSlug();
  }

  // ---------------------------------------------------------------------------
  // "Турецкая ангора": no descriptor and no override applies, and the space
  // between the two words is dropped by transliteration, not turned into a
  // hyphen.

  /** A second word whose first letter starts no stem survives every pass. */
  lemma {:induction false} SecondWordKept(x: string, c: string, ds: seq<Descriptor>)
    requires NoSpace(x) && NoSpace(c) && c != []
    requires forall k :: 0 <= k < |ds| ==> |ds[k].stem| > 0 && c[0] !in ds[k].stem[0]
    ensures RemoveDescriptors(x + " " + c, ds) == x + " " + c
    decreases |ds|
  {
    if ds != [] {
      assert x + " " + c == x + (" " + c);
      RemoveDescriptorAfterWord(x, " " + c, ds[0]);
      NoMatchAfterSpace(c, ds[0], 0);
      SecondWordKept(x, c, ds[1..]);
    }
  }

  lemma AngoraSplit()
    ensures "Турецкая ангора" == "Т" + "урецкая ангора"
  {
  }

  lemma AngoraHeadLower()
    ensures ToLower("Т") == "т"
  {
  }

  lemma AngoraTailSplit()
    ensures "урецкая ангора" == "урецкая" + " ангора"
  {
  }

  lemma TurkishTailLower()
    ensures ToLower("урецкая") == "урецкая"
  {
    ToLowerUnchanged("урецкая");
  }

  lemma AngoraWordLower()
    ensures ToLower(" ангора") == " ангора"
  {
    ToLowerUnchanged(" ангора");
  }

  lemma AngoraTailLower()
    ensures ToLower("урецкая ангора") == "урецкая ангора"
  {
    AngoraTailSplit();
    TurkishTailLower();
    AngoraWordLower();
    LowerConcat("урецкая ангора", "урецкая", " ангора", "урецкая", " ангора", "урецкая ангора");
  }

  lemma AngoraJoin()
    ensures "т" + "урецкая ангора" == "турецкая ангора"
  {
  }

  lemma AngoraLower()
    ensures ToLower("Турецкая ангора") == "турецкая ангора"
  {
    AngoraSplit();
    AngoraHeadLower();
    AngoraTailLower();
    AngoraJoin();
    LowerConcat("Турецкая ангора", "Т", "урецкая ангора", "т", "урецкая ангора", "турецкая ангора");
  }

  lemma AngoraTrim()
    ensures Trim("турецкая ангора") == "турецкая ангора"
  {
    TrimUntouched("турецкая ангора");
  }

  lemma AngoraWords()
    ensures "турецкая ангора" == "турецкая" + " " + "ангора"
    ensures NoSpace("турецкая") && NoSpace("ангора")
  {
  }

  /** No stem starts with "а". */
  lemma AngoraStemLetters()
    ensures forall k :: 0 <= k < |Descriptors| ==> |Descriptors[k].stem| > 0 && 'а' !in Descriptors[k].stem[0]
  {
    forall k | 0 <= k < |Descriptors|
      ensures |Descriptors[k].stem| > 0 && 'а' !in Descriptors[k].stem[0]
    {
      if k == 0 { assert Descriptors[k] == CatFemale; }
      else if k == 1 { assert Descriptors[k] == CatMale; }
      else if k == 2 { assert Descriptors[k] == ShortHair; }
      else if k == 3 { assert Descriptors[k] == LongHair; }
      else if k == 4 { assert Descriptors[k] == SemiLongHair; }
      else if k == 5 { assert Descriptors[k] == Hairless; }
      else { assert Descriptors[k] == Oriental; }
    }
  }

  lemma AngoraStripped()
    ensures RemoveDescriptors("турецкая ангора", Descriptors) == "турецкая ангора"
  {
    AngoraWords();
    AngoraStemLetters();
    assert "ангора"[0] == 'а';
    SecondWordKept("турецкая", "ангора", Descriptors);
  }

  lemma AngoraMisses()
    ensures forall j :: 0 <= j < |SortedCases| ==> !Includes("турецкая ангора", SortedCases[j].0)
  {
    var s := "турецкая ангора";
    forall j | 0 <= j < |SortedCases|
      ensures !Includes(s, SortedCases[j].0)
    {
      if j == 0 { NotIncludesMissingChar(s, "персидск", 'п'); }
      else if j == 1 { NotIncludesMissingChar(s, "британск", 'б'); }
      else if j == 2 { NotIncludesMissingChar(s, "ориентал", 'и'); }
      else if j == 3 { NotIncludesMissingChar(s, "регдолл", 'д'); }
      else if j == 4 { NotIncludesMissingChar(s, "рэгдолл", 'э'); }
      else if j == 5 { NotIncludesMissingChar(s, "сиамск", 'с'); }
      else if j == 6 { NotIncludesMissingChar(s, "регдол", 'д'); }
      else { NotIncludesMissingChar(s, "мейн", 'м'); }
    }
  }

  lemma AngoraNoOverride()
    ensures ApplyOverride("турецкая ангора") == "турецкая ангора"
    ensures !IsOverrideValue("турецкая ангора")
  {
    AngoraMisses();
  }

  lemma TurkishSplit()
    ensures "турецкая" == "туре" + "цкая"
  {
  }

  lemma TureTranslit()
    ensures Transliterate("туре") == "ture"
  {
    TransliteratePointwise("туре", "ture");
  }

  lemma TskayaTranslit()
    ensures Transliterate("цкая") == "tskaya"
  {
  }

  lemma TurkishJoin()
    ensures "ture" + "tskaya" == "turetskaya"
  {
  }

  lemma TurkishTranslit()
    ensures Transliterate("турецкая") == "turetskaya"
  {
    TurkishSplit();
    TureTranslit();
    TskayaTranslit();
    TurkishJoin();
    TranslitConcat("турецкая", "туре", "цкая", "ture", "tskaya", "turetskaya");
  }

  lemma AngoraWordTranslit()
    ensures Transliterate("ангора") == "angora"
  {
    TransliteratePointwise("ангора", "angora");
  }

  lemma AngoraTranslitJoin()
    ensures "turetskaya" + "angora" == "turetskayaangora"
  {
  }

  lemma AngoraTranslit()
    ensures Transliterate("турецкая ангора") == "turetskayaangora"
  {
    AngoraWords();
    TranslitDropsSpace("турецкая", ' ', "ангора");
    TurkishTranslit();
    AngoraWordTranslit();
    AngoraTranslitJoin();
  }

  lemma AngoraIsSlug()
    ensures IsSlug("turetskayaangora")
  {
  }

  /** The two words are glued together: the slug has no hyphen. */
  lemma TurkishAngora()
    ensures NormalizeBreed("Турецкая ангора") == "turetskayaangora"
  {
    AngoraLower();
    AngoraTrim();
    AngoraStripped();
    AngoraNoOverride();
    AngoraTranslit();
    AngoraIsSlug();
    Transliterated("турецкая ангора", "turetskayaangora");
    Pipeline("Турецкая ангора", "турецкая ангора", "турецкая ангора", "турецкая ангора", "turetskayaangora");
  }

  // ---------------------------------------------------------------------------
  // The transliteration table, letter by letter

  /** Every letter of the Russian alphabet, in order, becomes its table
      entry: the hard and soft signs vanish, and the letters with
      two- or three-letter entries spell them out. */
  lemma TranslitAlphabet()
    ensures Transliterate("абвгдеёжзийклмнопрстуфхцчшщъыьэюя")
         == "abvgdeyozhziyklmnoprstufhtschshschyeyuya"
  {
    AlphabetSplit();
    TranslitFirstHalf();
    TranslitSecondHalf();
    AlphabetJoin();
    TranslitConcat("абвгдеёжзийклмнопрстуфхцчшщъыьэюя",
                   "абвгдеёжзийклмнопрстуфх", "цчшщъыьэюя",
                   "abvgdeyozhziyklmnoprstufh", "tschshschyeyuya",
                   "abvgdeyozhziyklmnoprstufhtschshschyeyuya");
  }

  lemma AlphabetSplit()
    ensures "абвгдеёжзийклмнопрстуфхцчшщъыьэюя" == "абвгдеёжзийклмнопрстуфх" + "цчшщъыьэюя"
  {
  }

  lemma AlphabetJoin()
    ensures "abvgdeyozhziyklmnoprstufh" + "tschshschyeyuya" == "abvgdeyozhziyklmnoprstufhtschshschyeyuya"
  {
  }

  lemma TranslitFirstHalf()
    ensures Transliterate("абвгдеёжзийклмнопрстуфх") == "abvgdeyozhziyklmnoprstufh"
  {
    FirstHalfSplit();
    TranslitFirstEight();
    TranslitPlainLetters();
    FirstHalfJoin();
    TranslitConcat("абвгдеёжзийклмнопрстуфх", "абвгдеёж", "зийклмнопрстуфх",
                   "abvgdeyozh", "ziyklmnoprstufh", "abvgdeyozhziyklmnoprstufh");
  }

  lemma FirstHalfSplit()
    ensures "абвгдеёжзийклмнопрстуфх" == "абвгдеёж" + "зийклмнопрстуфх"
  {
  }

  lemma FirstHalfJoin()
    ensures "abvgdeyozh" + "ziyklmnoprstufh" == "abvgdeyozhziyklmnoprstufh"
  {
  }

  lemma TranslitFirstEight()
    ensures Transliterate("абвгдеёж") == "abvgdeyozh"
  {
    FirstEightSplit();
    TransliteratePointwise("абвгде", "abvgde");
    TranslitYoZh();
    FirstEightJoin();
    TranslitConcat("абвгдеёж", "абвгде", "ёж", "abvgde", "yozh", "abvgdeyozh");
  }

  lemma FirstEightSplit()
    ensures "абвгдеёж" == "абвгде" + "ёж"
  {
  }

  lemma FirstEightJoin()
    ensures "abvgde" + "yozh" == "abvgdeyozh"
  {
  }

  lemma TranslitYoZh()
    ensures Transliterate("ёж") == "yozh"
  {
  }

  lemma TranslitPlainLetters()
    ensures Transliterate("зийклмнопрстуфх") == "ziyklmnoprstufh"
  {
    TransliteratePointwise("зийклмнопрстуфх", "ziyklmnoprstufh");
  }

  lemma TranslitSecondHalf()
    ensures Transliterate("цчшщъыьэюя") == "tschshschyeyuya"
  {
    SecondHalfSplit();
    TranslitHushing();
    TranslitLastLetters();
    SecondHalfJoin();
    TranslitConcat("цчшщъыьэюя", "цчшщ", "ъыьэюя", "tschshsch", "yeyuya", "tschshschyeyuya");
  }

  lemma SecondHalfSplit()
    ensures "цчшщъыьэюя" == "цчшщ" + "ъыьэюя"
  {
  }

  lemma SecondHalfJoin()
    ensures "tschshsch" + "yeyuya" == "tschshschyeyuya"
  {
  }

  lemma TranslitHushing()
    ensures Transliterate("цчшщ") == "tschshsch"
  {
  }

  lemma TranslitLastLetters()
    ensures Transliterate("ъыьэюя") == "yeyuya"
  {
  }

  // ---------------------------------------------------------------------------
  // A descriptor word deleted outright

  /** "кошка" after a word, with its one-letter ending, goes together with
      the space before it. */
  lemma SiameseCat()
    ensures RemoveDescriptor("сиамская кошка", CatFemale) == "сиамская"
  {
    SiameseSplit();
    RemoveDescriptorDeletesWord("сиамская", "кошка", CatFemale);
  }

  lemma SiameseSplit()
    ensures "сиамская кошка" == "сиамская" + " " + "кошка"
  {
  }

  /** "кошка" between two words goes with the whitespace on both sides, so
      the words around it are glued. */
  lemma CatBetweenWords()
    ensures RemoveDescriptor("ab кошка cd", CatFemale) == "abcd"
  {
    CatBetweenSplit();
    CatWordThen();
    RemoveDescriptorGluesWord("ab", "кошка", " ", "cd", CatFemale);
    CatBetweenTail();
  }

  lemma CatBetweenTail()
    ensures "ab" + RemoveDescriptor("cd", CatFemale) == "abcd"
  {
    assert NoSpace("cd");
    RemoveDescriptorNoSpace("cd", CatFemale);
  }

  lemma CatBetweenSplit()
    ensures "ab кошка cd" == "ab" + " " + "кошка" + " " + "cd"
  {
  }

  lemma CatWordThen()
    ensures DescriptorWordThen("кошка", " ", "cd", CatFemale)
  {
    assert StemAt(" кошка", 1, CatFemale.stem);
    assert " " + "кошка" == " кошка";
  }
}
