/** Properties of sanitizeFileName that relate several calls or several
    stages: how runs are collapsed, where the extension comes from, the trim
    and length rules, and idempotence. */
module SanitizeProperties {
  import opened Outcomes
  import opened Text
  import opened Sanitize

  // ---------------------------------------------------------------------
  // Collapsing runs of disallowed characters
  // ---------------------------------------------------------------------

  /** Whether the scan is inside a run of disallowed characters after
      reading `s`, having started in state `inRun`. */
  function RunStateAfter(s: string, inRun: bool): bool {
    if s == [] then inRun else !Allowed(s[|s| - 1])
  }

  /** The replacement of a concatenation is the replacement of each part, the
      second one read in the state the first one left: a run that straddles
      the cut still yields a single '_'. */
  lemma {:induction false} CollapseAppend(a: string, b: string, inRun: bool)
    ensures CollapseFrom(a + b, inRun)
         == CollapseFrom(a, inRun) + CollapseFrom(b, RunStateAfter(a, inRun))
    decreases |a|
  {
    if a == [] {
      assert a + b == b;
    } else {
      assert (a + b)[1..] == a[1..] + b;
      assert (a + b)[0] == a[0];
      CollapseAppend(a[1..], b, !Allowed(a[0]));
      assert RunStateAfter(a[1..], !Allowed(a[0])) == RunStateAfter(a, inRun);
    }
  }

  /** Text that starts with an allowed character is read the same way
      whatever came before it. */
  lemma AllowedStartForgetsState(b: string)
    requires b == [] || Allowed(b[0])
    ensures CollapseFrom(b, true) == CollapseFrom(b, false)
  {
  }

  /** A non-empty run of disallowed characters becomes a single '_' (and
      nothing at all when it continues a run already written). */
  lemma {:induction false} CollapseRun(run: string, inRun: bool)
    requires |run| > 0
    requires forall i :: 0 <= i < |run| ==> !Allowed(run[i])
    ensures CollapseFrom(run, inRun) == if inRun then [] else "_"
    decreases |run|
  {
    if |run| > 1 {
      CollapseRun(run[1..], true);
    }
  }

  /** The replacement rule on a maximal run: with an allowed character (or
      nothing) on each side, the whole run turns into exactly one '_' and the
      text around it is handled independently. */
  lemma CollapseMaximalRun(a: string, run: string, b: string)
    requires |run| > 0
    requires forall i :: 0 <= i < |run| ==> !Allowed(run[i])
    requires a == [] || Allowed(a[|a| - 1])
    requires b == [] || Allowed(b[0])
    ensures CollapseRuns(a + run + b) == CollapseRuns(a) + "_" + CollapseRuns(b)
  {
    assert a + run + b == a + (run + b);
    assert RunStateAfter(a, false) == false;
    assert RunStateAfter(run, false) == true;
    var ca := CollapseRuns(a);
    var cb := CollapseRuns(b);
    assert CollapseFrom(run + b, false) == "_" + cb by {
      CollapseAppend(run, b, false);
      CollapseRun(run, false);
      AllowedStartForgetsState(b);
    }
    CollapseAppend(a, run + b, false);
    assert CollapseRuns(a + run + b) == ca + ("_" + cb);
  }

  /** Space replacement commutes with concatenation. */
  lemma ReplaceSpacesAppend(a: string, b: string)
    ensures ReplaceSpaces(a + b) == ReplaceSpaces(a) + ReplaceSpaces(b)
  {
  }

  /** Each space of the base becomes its own '_': a space is never merged
      with its neighbours, whether they are spaces, other disallowed
      characters or allowed ones, because '_' is itself allowed. */
  lemma SpaceNeverMerges(a: string, b: string)
    ensures CollapseRuns(ReplaceSpaces(a + " " + b))
         == CollapseRuns(ReplaceSpaces(a)) + "_" + CollapseRuns(ReplaceSpaces(b))
  {
    var a' := ReplaceSpaces(a);
    var b' := ReplaceSpaces(b);
    ReplaceSpacesAppend(a + " ", b);
    ReplaceSpacesAppend(a, " ");
    assert ReplaceSpaces(" ") == "_";
    assert ReplaceSpaces(a + " " + b) == a' + ("_" + b');
    CollapseAppend(a', "_" + b', false);
    AllowedStartForgetsState("_" + b');
    assert ("_" + b')[1..] == b';
  }

  // ---------------------------------------------------------------------
  // The extension
  // ---------------------------------------------------------------------

  /** Lower-casing neither creates nor moves a '.'. */
  lemma DotsSurviveLowering(s: string)
    ensures forall i :: 0 <= i < |s| ==> (ToLower(s)[i] == '.' <==> s[i] == '.')
    ensures '.' in ToLower(s) <==> '.' in s
  {
    var l := ToLower(s);
    if '.' in s {
      var i :| 0 <= i < |s| && s[i] == '.';
      assert l[i] == '.';
    }
    if '.' in l {
      var i :| 0 <= i < |l| && l[i] == '.';
      assert s[i] == '.';
    }
  }

  /** A split at a '.' with no later '.' is the split SplitExtension makes. */
  lemma SplitUnique(s: string, base: string, ext: string)
    requires base + ext == s
    requires |ext| > 0 && ext[0] == '.' && '.' !in ext[1..]
    ensures SplitExtension(s) == NameParts(base, ext)
  {
    var p := SplitExtension(s);
    assert '.' in s by { assert s[|base|] == '.'; }
    var i := |s| - |p.ext|;
    var j := |base|;
    assert s[i] == '.' && s[j] == '.';
    assert forall k :: i < k < |s| ==> s[k] != '.' by {
      assert forall k :: i < k < |s| ==> s[k] == p.ext[1..][k - i - 1];
    }
    assert forall k :: j < k < |s| ==> s[k] != '.' by {
      assert forall k :: j < k < |s| ==> s[k] == ext[1..][k - j - 1];
    }
    assert i == j;
    assert p.ext == s[j..] == ext;
  }

  /** The extension is the raw name from its last '.' on, lower-cased: the
      split may equally be done before or after lower-casing. */
  lemma ExtensionFromRawName(name: string)
    ensures LastIndexOf(name, '.').None? ==> ExtensionOf(name) == []
    ensures LastIndexOf(name, '.').Some? ==>
      ExtensionOf(name) == ToLower(name[LastIndexOf(name, '.').value..])
  {
    DotsSurviveLowering(name);
    match LastIndexOf(name, '.')
    case None =>
    case Some(k) =>
      var l := ToLower(name);
      var ext := l[k..];
      assert ext[0] == '.';
      assert '.' !in ext[1..] by {
        assert '.' !in name[k + 1..];
        assert forall j :: 0 <= j < |ext| - 1 ==> ext[1..][j] == Lower(name[k + 1..][j]);
      }
      assert l == l[..k] + ext;
      SplitUnique(l, l[..k], ext);
      ToLowerSuffix(name, k);
  }

  /** A name without '.' gets no extension and its sanitized form has no '.'
      either, so it is never mistaken for one that has. */
  lemma NoDotMeansNoExtension(name: string)
    requires '.' !in name
    ensures ExtensionOf(name) == []
    ensures SanitizeFileName(name).Ok?
    ensures '.' !in SanitizeFileName(name).value
  {
    DotsSurviveLowering(name);
    var out := SanitizeFileName(name).value;
    var b := BaseOf(name);
    assert PartsOf(name).base == ToLower(name);
    CleanBaseShape(ToLower(name));
    if Truncates(name) {
      assert out == b[..MaxNameLength] + [];
      assert forall i :: 0 <= i < |out| ==> out[i] == b[i];
    } else {
      assert out == b + [];
    }
  }

  // ---------------------------------------------------------------------
  // Trim and length rules
  // ---------------------------------------------------------------------

  /** Without a length cut the sanitized name is the cleaned base followed by
      the extension, and a non-empty base starts and ends with a letter or
      digit. */
  lemma TrimRule(name: string)
    requires !Truncates(name)
    ensures SanitizeFileName(name) == Ok(BaseOf(name) + ExtensionOf(name))
    ensures BaseOf(name) != [] ==>
      var out := SanitizeFileName(name).value;
      IsLowerAlnum(out[0]) && IsLowerAlnum(out[|BaseOf(name)| - 1])
  {
    var b := BaseOf(name);
    var e := ExtensionOf(name);
    var out := b + e;
    assert SanitizeFileName(name) == Assemble(b, e);
    assert Assemble(b, e) == Ok(out);
    CleanBaseShape(PartsOf(name).base);
    if b != [] {
      assert out[0] == b[0] && out[|b| - 1] == b[|b| - 1];
    }
  }

  /** A base longer than 1024 - len(extension) is cut to exactly that length,
      so the name fills the 1024-byte budget exactly, extension intact. */
  lemma TruncationFillsBudget(name: string)
    requires Truncates(name)
    requires Utf8Len(ExtensionOf(name)) <= MaxNameLength
    ensures SanitizeFileName(name) == Ok(BaseOf(name)[..MaxBaseLength(name)] + ExtensionOf(name))
    ensures Utf8Len(SanitizeFileName(name).value) == MaxNameLength
  {
    var b := BaseOf(name);
    var e := ExtensionOf(name);
    var kept := b[..MaxBaseLength(name)];
    assert Utf8Len(kept + e) == |kept| + Utf8Len(e) by {
      CleanBaseShape(PartsOf(name).base);
      assert forall i :: 0 <= i < |kept| ==> kept[i] == b[i];
      ExtensionLower(name);
      Joined(kept, e);
    }
    assert SanitizeFileName(name) == Ok(kept + e);
  }

  /** SanitizeFileName read stage by stage: split, clean, assemble. */
  lemma ByStages(name: string, base: string, ext: string, clean: string)
    requires PartsOf(name) == NameParts(base, ext)
    requires CleanBase(base) == clean
    ensures SanitizeFileName(name) == Assemble(clean, ext)
  {
  }

  /** A name without '.' has no extension, so a cleaned base over 1024
      characters keeps exactly its first 1024. */
  lemma CutWithoutExtension(name: string)
    requires '.' !in name
    requires |BaseOf(name)| > MaxNameLength
    ensures SanitizeFileName(name) == Ok(BaseOf(name)[..MaxNameLength])
  {
    DotsSurviveLowering(name);
    assert ExtensionOf(name) == [];
    assert Utf8Len([]) == 0;
    assert BaseOf(name)[..MaxNameLength] + [] == BaseOf(name)[..MaxNameLength];
  }

  /** The stages before the cut leave a letters-underscore-letter name
      without '.' untouched. */
  lemma CleanNameStages(name: string)
    requires |name| > 0 && IsAsciiLower(name[0]) && IsAsciiLower(name[|name| - 1])
    requires forall i :: 0 <= i < |name| ==> IsAsciiLower(name[i]) || name[i] == '_'
    ensures PartsOf(name) == NameParts(name, [])
    ensures CleanBase(name) == name
  {
    assert PartsOf(name) == NameParts(name, []) by {
      ToLowerFixedPoints(name);
      assert '.' !in name;
    }
    CleanBaseFixed(name);
  }

  /** The length cut comes after trimming, so it can leave a '_' at the end
      of the base: 1023 letters followed by "_b" and no extension come out as
      the same letters and a trailing '_'. */
  lemma TruncationCanExposeSeparator(word: string)
    requires |word| == MaxNameLength - 1
    requires forall i :: 0 <= i < |word| ==> IsAsciiLower(word[i])
    ensures SanitizeFileName(word + "_b") == Ok(word + "_")
  {
    var name := word + "_b";
    assert |name| == MaxNameLength + 1;
    assert PartsOf(name) == NameParts(name, []) && CleanBase(name) == name by {
      assert forall i :: 0 <= i < |name| ==> IsAsciiLower(name[i]) || name[i] == '_';
      CleanNameStages(name);
    }
    assert '.' !in name;
    CutWithoutExtension(name);
    assert name[..MaxNameLength] == word + "_";
  }

  /** The base stages turn 1023 letters and a trailing '_' into the letters. */
  lemma TrailingSeparatorStages(word: string)
    requires |word| == MaxNameLength - 1
    requires forall i :: 0 <= i < |word| ==> IsAsciiLower(word[i])
    ensures PartsOf(word + "_") == NameParts(word + "_", [])
    ensures CleanBase(word + "_") == word
  {
    var name := word + "_";
    assert forall i :: 0 <= i < |name| ==> IsAsciiLower(name[i]) || name[i] == '_';
    assert PartsOf(name) == NameParts(name, []) by {
      ToLowerFixedPoints(name);
      assert '.' !in name;
    }
    ReplaceSpacesWithoutSpaces(name);
    CollapseKeepsAllowed(name, false);
    assert TrimStart(name) == 0 by {
      assert !InTrimSet(name[0]);
    }
    assert TrimEnd(name) == |word| by {
      assert !InTrimSet(name[|word| - 1]);
      assert InTrimSet(name[|word|]);
    }
    assert name[0..][..|word|] == word;
  }

  /** 1023 letters and a trailing '_' sanitize to the letters alone. */
  lemma TrailingSeparatorTrimmed(word: string)
    requires |word| == MaxNameLength - 1
    requires forall i :: 0 <= i < |word| ==> IsAsciiLower(word[i])
    ensures SanitizeFileName(word + "_") == Ok(word)
  {
    TrailingSeparatorStages(word);
    ByStages(word + "_", word + "_", [], word);
    assert Utf8Len([]) == 0;
    assert word + [] == word;
  }

  /** So sanitizing is not idempotent once the cut has exposed a separator:
      the second call trims the '_' the first call left. */
  lemma CutNameNotStable(word: string)
    requires |word| == MaxNameLength - 1
    requires forall i :: 0 <= i < |word| ==> IsAsciiLower(word[i])
    ensures var once := SanitizeFileName(word + "_b");
            once.Ok? && SanitizeFileName(once.value) != once
  {
    var first := word + "_";
    TruncationCanExposeSeparator(word);
    TrailingSeparatorTrimmed(word);
    assert Ok(word) != Ok(first) by {
      assert |word| != |first|;
    }
  }

  // ---------------------------------------------------------------------
  // Idempotence
  // ---------------------------------------------------------------------

  /** A base that is already clean passes the base stages unchanged. */
  lemma CleanBaseFixed(b: string)
    requires AllAllowed(b)
    requires b == [] || (IsLowerAlnum(b[0]) && IsLowerAlnum(b[|b| - 1]))
    ensures CleanBase(b) == b
  {
    ReplaceSpacesWithoutSpaces(b);
    CollapseKeepsAllowed(b, false);
    TrimWithoutCutsetEnds(b);
  }

  /** Without spaces there is nothing to replace. */
  lemma ReplaceSpacesWithoutSpaces(s: string)
    requires ' ' !in s
    ensures ReplaceSpaces(s) == s
  {
  }

  /** Trim leaves a string alone whose ends are outside the cutset. */
  lemma TrimWithoutCutsetEnds(s: string)
    requires s == [] || (!InTrimSet(s[0]) && !InTrimSet(s[|s| - 1]))
    ensures Trim(s) == s
  {
    assert s == [] || TrimStart(s) == 0;
  }

  /** The cleaned base followed by the extension splits back into the two. */
  lemma SanitizedParts(name: string)
    ensures PartsOf(BaseOf(name) + ExtensionOf(name)) == NameParts(BaseOf(name), ExtensionOf(name))
  {
    var b := BaseOf(name);
    var e := ExtensionOf(name);
    var out := b + e;
    CleanBaseShape(PartsOf(name).base);
    ExtensionLower(name);
    Joined(b, e);
    ToLowerFixedPoints(out);
    if e == [] {
      DotsSurviveLowering(name);
      assert '.' !in name;
      assert out == b;
    } else {
      SplitUnique(out, b, e);
    }
  }

  /** Sanitizing a sanitized name changes nothing, provided the first call
      did not cut the base (a cut may expose a trailing '.', '_' or '-' that
      a second call would trim). */
  lemma Idempotent(name: string)
    requires !Truncates(name)
    ensures SanitizeFileName(name).Ok?
    ensures SanitizeFileName(SanitizeFileName(name).value) == SanitizeFileName(name)
  {
    TrimRule(name);
    var b := BaseOf(name);
    CleanBaseShape(PartsOf(name).base);
    var e := ExtensionOf(name);
    var out := b + e;
    SanitizedParts(name);
    CleanBaseFixed(b);
    assert BaseOf(out) == b;
    assert ExtensionOf(out) == e;
  }

  // ---------------------------------------------------------------------
  // Worked examples
  // ---------------------------------------------------------------------

  lemma MixedCaseParts()
    ensures PartsOf("My File!!.CSV") == NameParts("my file!!", ".csv")
  {
    assert ToLower("My File!!.CSV") == "my file!!.csv";
    SplitUnique("my file!!.csv", "my file!!", ".csv");
  }

  lemma MixedCaseSplit()
    ensures CollapseFrom("my_file!!", false) == CollapseFrom("my_file", false) + CollapseFrom("!!", false)
  {
    assert "my_file!!" == "my_file" + "!!";
    CollapseAppend("my_file", "!!", false);
  }

  lemma MixedCaseWord()
    ensures CollapseFrom("my_file", false) == "my_file"
  {
    CollapseKeepsAllowed("my_file", false);
  }

  lemma MixedCaseBangs()
    ensures CollapseFrom("!!", false) == "_"
  {
    CollapseRun("!!", false);
  }

  lemma MixedCaseCollapse()
    ensures CollapseFrom("my_file!!", false) == "my_file_"
  {
    MixedCaseSplit();
    MixedCaseWord();
    MixedCaseBangs();
  }

  lemma MixedCaseTrim()
    ensures Trim("my_file_") == "my_file"
  {
    assert TrimStart("my_file_") == 0;
    assert TrimEnd("my_file_") == 7;
  }

  lemma MixedCaseReplace()
    ensures ReplaceSpaces("my file!!") == "my_file!!"
  {
  }

  lemma MixedCaseBase()
    ensures CleanBase("my file!!") == "my_file"
  {
    MixedCaseReplace();
    MixedCaseCollapse();
    MixedCaseTrim();
  }

  /** Runs of other characters collapse, the extension is only lower-cased. */
  lemma ExampleMixedCase()
    ensures SanitizeFileName("My File!!.CSV") == Ok("my_file.csv")
  {
    MixedCaseParts();
    MixedCaseBase();
    ByStages("My File!!.CSV", "my file!!", ".csv", "my_file");
    assert Assemble("my_file", ".csv") == Ok("my_file" + ".csv") by {
      assert Utf8Len(".csv") == 4;
    }
    assert "my_file" + ".csv" == "my_file.csv";
  }

  lemma TwoSpacesParts()
    ensures PartsOf("a  b") == NameParts("a  b", [])
  {
    assert ToLower("a  b") == "a  b";
  }

  lemma TwoSpacesReplace()
    ensures ReplaceSpaces("a  b") == "a__b"
  {
  }

  lemma TwoSpacesCollapse()
    ensures CollapseRuns("a__b") == "a__b"
  {
    CollapseKeepsAllowed("a__b", false);
  }

  lemma TwoSpacesTrim()
    ensures Trim("a__b") == "a__b"
  {
    assert TrimStart("a__b") == 0;
    assert TrimEnd("a__b") == 4;
  }

  lemma TwoSpacesStages()
    ensures PartsOf("a  b") == NameParts("a  b", [])
    ensures CleanBase("a  b") == "a__b"
  {
    TwoSpacesParts();
    TwoSpacesReplace();
    TwoSpacesCollapse();
    TwoSpacesTrim();
  }

  /** Two spaces give two underscores. */
  lemma ExampleTwoSpaces()
    ensures SanitizeFileName("a  b") == Ok("a__b")
  {
    TwoSpacesStages();
    ByStages("a  b", "a  b", [], "a__b");
    assert Utf8Len([]) == 0;
    assert "a__b" + [] == "a__b";
  }

  lemma HiddenParts()
    ensures PartsOf("   .hidden") == NameParts("   ", ".hidden")
  {
    assert ToLower("   .hidden") == "   .hidden";
    SplitUnique("   .hidden", "   ", ".hidden");
  }

  lemma HiddenCollapse()
    ensures CollapseRuns("___") == "___"
  {
    CollapseKeepsAllowed("___", false);
  }

  lemma HiddenTrim()
    ensures Trim("___") == []
  {
    assert TrimStart("___") == 3;
  }

  lemma HiddenStages()
    ensures PartsOf("   .hidden") == NameParts("   ", ".hidden")
    ensures CleanBase("   ") == []
  {
    HiddenParts();
    assert ReplaceSpaces("   ") == "___";
    HiddenCollapse();
    HiddenTrim();
  }

  /** A name that is all blanks before its dot keeps only the extension. */
  lemma ExampleHidden()
    ensures SanitizeFileName("   .hidden") == Ok(".hidden")
  {
    HiddenStages();
    ByStages("   .hidden", "   ", ".hidden", []);
    assert Utf8Len(".hidden") == 7;
    assert [] + ".hidden" == ".hidden";
  }
}
