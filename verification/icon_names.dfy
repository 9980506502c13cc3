/** File-name logic of the Octicons-to-Frappe converter: which directory
    entries are 24px icons, how an icon name is derived from a file name,
    and how the Frappe symbol id is built from the name and the fill flag.

    The source keeps the `-fill` marker in the derived name AND appends
    `-fill` again when building the id, so `x-fill-24.svg` gets the id
    `icon-octicon-x-fill-fill-24`; the model keeps that behaviour. */
module IconNames {
  import opened Text
  import CodePointOrder

  const SizeSuffix := "-24.svg"
  const SvgExt := ".svg"
  const FillMarker := "-fill"
  const IdPrefix := "icon-octicon-"
  const PlainIdSuffix := "-24"
  const FillIdSuffix := "-fill-24"

  // ---------------------------------------------------------------------
  // Selecting the files to convert

  /** `is_24px_icon`: the file name ends with `-24.svg`. */
  predicate Is24pxIcon(filename: string) {
    EndsWith(filename, SizeSuffix)
  }

  /** The part of a 24px icon's file name before `-24.svg`. */
  function Stem(filename: string): (stem: string)
    requires Is24pxIcon(filename)
    ensures filename == stem + SizeSuffix
  {
    filename[..|filename| - |SizeSuffix|]
  }

  /** Any stem followed by `-24.svg` is a 24px icon, and `Stem` gives that
      stem back: with `Stem`'s contract, a name is a 24px icon exactly when
      it is some stem followed by `-24.svg`. */
  lemma SuffixedNameIs24px(stem: string)
    ensures Is24pxIcon(stem + SizeSuffix) && Stem(stem + SizeSuffix) == stem
  {
    var f := stem + SizeSuffix;
    assert f[|f| - |SizeSuffix|..] == SizeSuffix;
  }

  /** The directory entries that are 24px icons, in listing order. */
  function Candidates(listing: seq<string>): (r: seq<string>)
    ensures forall f :: f in r <==> f in listing && Is24pxIcon(f)
    ensures forall f :: multiset(r)[f] == if Is24pxIcon(f) then multiset(listing)[f] else 0
  {
    if |listing| == 0 then []
    else
      assert listing == [listing[0]] + listing[1..];
      var rest := Candidates(listing[1..]);
      if Is24pxIcon(listing[0]) then [listing[0]] + rest else rest
  }

  /** `sorted([f for f in listing if is_24px_icon(f)])`: the 24px icons of
      the listing, each name at most the next by code point, every 24px
      entry present as often as it is listed and nothing else. */
  function SortedCandidates(listing: seq<string>): (r: seq<string>)
    ensures CodePointOrder.Sorted(r)
    ensures forall f :: multiset(r)[f] == if Is24pxIcon(f) then multiset(listing)[f] else 0
  {
    CodePointOrder.Sort(Candidates(listing))
  }

  /** The order in which the directory lists its entries does not matter:
      two listings of the same names give the same candidate sequence. */
  lemma CandidateOrderIndependentOfListing(l1: seq<string>, l2: seq<string>)
    requires multiset(l1) == multiset(l2)
    ensures SortedCandidates(l1) == SortedCandidates(l2)
  {
    var c1 := Candidates(l1);
    var c2 := Candidates(l2);
    assert forall f :: multiset(c1)[f] == multiset(c2)[f];
    assert multiset(c1) == multiset(c2);
    CodePointOrder.SortDependsOnlyOnNames(c1, c2);
  }

  // ---------------------------------------------------------------------
  // Deriving the icon name

  /** `s.replace('.svg', '')`: one left-to-right pass that deletes every
      non-overlapping occurrence of `.svg`. */
  function DropSvgExt(s: string): (r: string)
    ensures |r| <= |s|
    decreases |s|
  {
    if |s| < |SvgExt| then s
    else if s[..|SvgExt|] == SvgExt then DropSvgExt(s[|SvgExt|..])
    else [s[0]] + DropSvgExt(s[1..])
  }

  /** The pass agrees with the usual account of `str.replace`: find the
      leftmost occurrence, keep what precedes it, skip it, and carry on
      after it; with no occurrence the string is kept whole. */
  lemma {:induction false} DropSvgExtByFind(s: string)
    ensures Find(s, SvgExt, 0).None? ==> DropSvgExt(s) == s
    ensures Find(s, SvgExt, 0).Some? ==>
      var i := Find(s, SvgExt, 0).value;
      DropSvgExt(s) == s[..i] + DropSvgExt(s[i + |SvgExt|..])
    decreases |s|
  {
    if |s| < |SvgExt| {
    } else if s[..|SvgExt|] == SvgExt {
      assert OccursAt(s, SvgExt, 0);
    } else {
      var rest := s[1..];
      assert !OccursAt(s, SvgExt, 0);
      FindInSuffix(s, SvgExt, 1, 0);
      DropSvgExtByFind(rest);
      assert DropSvgExt(s) == [s[0]] + DropSvgExt(rest);
      if Find(rest, SvgExt, 0).Some? {
        var j := Find(rest, SvgExt, 0).value;
        HeadThenPrefix(s, j, DropSvgExt(rest[j + |SvgExt|..]));
        assert rest[j + |SvgExt|..] == s[j + 1 + |SvgExt|..];
      } else {
        assert s == [s[0]] + rest;
      }
    }
  }

  /** Keeping the head of `s` and then a prefix of its tail keeps a prefix of `s`. */
  lemma HeadThenPrefix(s: string, j: nat, r: string)
    requires j < |s|
    ensures [s[0]] + (s[1..][..j] + r) == s[..j + 1] + r
  {
    assert [s[0]] + s[1..][..j] == s[..j + 1];
  }

  /** A string without `.svg` is left unchanged. */
  lemma {:induction false} DropSvgExtWithout(s: string)
    requires !Contains(s, SvgExt)
    ensures DropSvgExt(s) == s
    decreases |s|
  {
    if |s| >= |SvgExt| {
      assert !OccursAt(s, SvgExt, 0);
      AbsentFromSuffix(s, SvgExt, 1);
      DropSvgExtWithout(s[1..]);
      assert s == [s[0]] + s[1..];
    }
  }

  /** A string holding `.svg` gets shorter: every occurrence the pass meets
      is deleted, and the leftmost one is always met. */
  lemma {:induction false} DropSvgExtShortens(s: string)
    requires Contains(s, SvgExt)
    ensures |DropSvgExt(s)| < |s|
    decreases |s|
  {
    var k: nat :| k <= |s| && OccursAt(s, SvgExt, k);
    if s[..|SvgExt|] != SvgExt {
      assert k > 0;
      assert s[1..][k - 1..k - 1 + |SvgExt|] == s[k..k + |SvgExt|];
      assert OccursAt(s[1..], SvgExt, k - 1);
      DropSvgExtShortens(s[1..]);
    }
  }

  /** `.svg` deletion changes a string exactly when `.svg` occurs in it. */
  lemma DropSvgExtUnchangedIff(s: string)
    ensures DropSvgExt(s) == s <==> !Contains(s, SvgExt)
  {
    if Contains(s, SvgExt) {
      DropSvgExtShortens(s);
    } else {
      DropSvgExtWithout(s);
    }
  }

  /** Deleting `.svg` from a concatenation works piecewise when the second
      part cannot complete an occurrence begun in the first: `.svg` has no
      proper prefix that is also a suffix, so only a second part starting
      with `s`, `v` or `g` could. */
  lemma {:induction false} DropSvgExtConcat(a: string, b: string)
    requires |b| == 0 || b[0] !in "svg"
    ensures DropSvgExt(a + b) == DropSvgExt(a) + DropSvgExt(b)
    decreases |a|
  {
    var s := a + b;
    assert 0 < |a| < |SvgExt| <= |s| ==> s[..|SvgExt|][|a|] == b[0];
    if |a| == 0 {
      assert s == b;
    } else if |s| < |SvgExt| {
    } else if s[..|SvgExt|] == SvgExt {
      assert a[..|SvgExt|] == SvgExt;
      assert s[|SvgExt|..] == a[|SvgExt|..] + b;
      DropSvgExtConcat(a[|SvgExt|..], b);
    } else {
      assert s[1..] == a[1..] + b;
      DropSvgExtConcat(a[1..], b);
      if |a| >= |SvgExt| {
        assert a[..|SvgExt|] == s[..|SvgExt|];
      }
    }
  }

  /** Number of trailing decimal digits. */
  function TrailingDigits(s: string): (n: nat)
    ensures n <= |s| && AllDigits(s[|s| - n..])
    ensures n < |s| ==> !IsDigit(s[|s| - n - 1])
  {
    var n := TrailingCount(s, IsDigit);
    n
  }

  /** The trailing digit run of `s` starts right after a non-digit followed only by digits. */
  lemma {:induction false} TrailingDigitsAfter(s: string, i: nat)
    requires i < |s| && !IsDigit(s[i]) && AllDigits(s[i + 1..])
    ensures TrailingDigits(s) == |s| - i - 1
    decreases |s| - i
  {
    if i < |s| - 1 {
      var s' := s[..|s| - 1];
      assert s[i + 1..][|s| - 1 - (i + 1)] == s[|s| - 1];
      assert s'[i + 1..] == s[i + 1..][..|s| - 1 - (i + 1)];
      TrailingDigitsAfter(s', i);
    }
  }

  /** `re.sub(r'-\d+$', '', s)`: removes a hyphen followed by the whole
      trailing run of digits, when there is one. */
  function StripSizeSuffix(s: string): (r: string)
    ensures r <= s
    ensures r != s ==> |r| + 2 <= |s| && s[|r|] == '-' && AllDigits(s[|r| + 1..])
  {
    var n := TrailingDigits(s);
    if 0 < n < |s| && s[|s| - n - 1] == '-' then s[..|s| - n - 1] else s
  }

  /** The substitution removes exactly one `-<digits>` run reaching the end
      of the string, and leaves a string without one unchanged. */
  lemma StripSizeSuffixSpec(s: string)
    ensures forall i :: 0 <= i < |s| - 1 && s[i] == '-' && AllDigits(s[i + 1..]) ==> StripSizeSuffix(s) == s[..i]
    ensures (forall i :: 0 <= i < |s| - 1 ==> !(s[i] == '-' && AllDigits(s[i + 1..]))) ==> StripSizeSuffix(s) == s
  {
    var n := TrailingDigits(s);
    forall i | 0 <= i < |s| - 1 && s[i] == '-' && AllDigits(s[i + 1..])
      ensures StripSizeSuffix(s) == s[..i]
    {
      TrailingDigitsAfter(s, i);
    }
    if 0 < n < |s| && s[|s| - n - 1] == '-' {
      var i := |s| - n - 1;
      assert s[i] == '-' && AllDigits(s[i + 1..]);
    }
  }

  /** `extract_icon_name`: drop `.svg`, then the size suffix. */
  function ExtractIconName(filename: string): (name: string)
    ensures |name| <= |filename|
    ensures name <= DropSvgExt(filename)
    ensures name != DropSvgExt(filename) ==>
      var d := DropSvgExt(filename);
      |name| + 2 <= |d| && d[|name|] == '-' && AllDigits(d[|name| + 1..])
  {
    StripSizeSuffix(DropSvgExt(filename))
  }

  /** Deleting `.svg` from the size suffix leaves `-24`. */
  lemma DropSvgExtOfSizeSuffix()
    ensures DropSvgExt(SizeSuffix) == PlainIdSuffix
  {
    assert DropSvgExt(".svg") == "";
    assert DropSvgExt("4.svg") == "4";
    assert DropSvgExt("24.svg") == "24";
  }

  /** The substitution removes an appended `-24`, whatever comes before it. */
  lemma StripSizeSuffixOfPlain(name: string)
    ensures StripSizeSuffix(name + PlainIdSuffix) == name
  {
    var d := name + PlainIdSuffix;
    var i := |name|;
    assert d[i] == '-' && d[i + 1..] == "24" && AllDigits(d[i + 1..]);
    StripSizeSuffixSpec(d);
    assert d[..i] == name;
  }

  /** For a 24px icon the derived name is the stem with `.svg` deleted;
      when the stem holds no `.svg` it is the stem itself, so a `-fill`
      marker in it is kept: `home-fill-24.svg` gives `home-fill`. */
  lemma IconNameOfCandidate(filename: string)
    requires Is24pxIcon(filename)
    ensures ExtractIconName(filename) == DropSvgExt(Stem(filename))
    ensures !Contains(Stem(filename), SvgExt) ==> ExtractIconName(filename) == Stem(filename)
  {
    var stem := Stem(filename);
    DropSvgExtConcat(stem, SizeSuffix);
    DropSvgExtOfSizeSuffix();
    StripSizeSuffixOfPlain(DropSvgExt(stem));
    if !Contains(stem, SvgExt) {
      DropSvgExtWithout(stem);
    }
  }

  // ---------------------------------------------------------------------
  // Building the symbol id

  /** `'-fill' in filename`. */
  predicate IsFillVariant(filename: string) {
    Contains(filename, FillMarker)
  }

  /** A 24px icon is a fill variant exactly when its stem holds `-fill`:
      the marker cannot overlap `-24.svg`, which has no `l`. */
  lemma FillMarkerInStem(filename: string)
    requires Is24pxIcon(filename)
    ensures IsFillVariant(filename) <==> Contains(Stem(filename), FillMarker)
  {
    var stem := Stem(filename);
    if Contains(stem, FillMarker) {
      var k: nat :| k <= |stem| && OccursAt(stem, FillMarker, k);
      OccursInPrefix(stem, SizeSuffix, FillMarker, k);
    }
    if IsFillVariant(filename) {
      var k: nat :| k <= |filename| && OccursAt(filename, FillMarker, k);
      assert filename[k..k + 5][4] == filename[k + 4] == 'l';
      assert forall j :: |stem| <= j < |filename| ==> filename[j] == SizeSuffix[j - |stem|];
      assert k + 5 <= |stem|;
      assert filename[k..k + 5] == stem[k..k + 5];
      assert OccursAt(stem, FillMarker, k);
    }
  }

  /** `generate_symbol_id`: the Frappe id of a 24px Octicon. */
  function GenerateSymbolId(iconName: string, isFill: bool): (id: string)
    ensures |id| == |IdPrefix| + |iconName| + if isFill then |FillIdSuffix| else |PlainIdSuffix|
    ensures IdPrefix <= id && id[|IdPrefix|..|IdPrefix| + |iconName|] == iconName
    ensures EndsWith(id, if isFill then FillIdSuffix else PlainIdSuffix)
  {
    if isFill then IdPrefix + iconName + FillIdSuffix else IdPrefix + iconName + PlainIdSuffix
  }

  /** The id determines the name for a given fill flag, and the fill flag
      means nothing more than a `-fill` at the end of the name: a fill id
      is the plain id of the name with `-fill` appended. */
  lemma SymbolIdNameAndFlag(n1: string, n2: string, isFill: bool)
    ensures GenerateSymbolId(n1, isFill) == GenerateSymbolId(n2, isFill) ==> n1 == n2
    ensures GenerateSymbolId(n1, true) == GenerateSymbolId(n1 + FillMarker, false)
  {
    var suffix := if isFill then FillIdSuffix else PlainIdSuffix;
    if GenerateSymbolId(n1, isFill) == GenerateSymbolId(n2, isFill) {
      MiddleDetermined(IdPrefix, n1, n2, suffix);
    }
    assert FillIdSuffix == FillMarker + PlainIdSuffix;
    assert IdPrefix + n1 + (FillMarker + PlainIdSuffix) == IdPrefix + (n1 + FillMarker) + PlainIdSuffix;
  }

  /** Between a fixed prefix and a fixed suffix, the middle is determined. */
  lemma MiddleDetermined(a: string, x: string, y: string, c: string)
    requires a + x + c == a + y + c
    ensures x == y
  {
    assert x == (a + x + c)[|a|..|a| + |x|];
    assert y == (a + y + c)[|a|..|a| + |y|];
  }

  /** The symbol id the converter gives a file. */
  function SymbolIdOf(filename: string): string
  {
    GenerateSymbolId(ExtractIconName(filename), IsFillVariant(filename))
  }

  /** The id of a 24px icon whose stem has no `.svg` is the prefix, the
      stem, and then `-fill-24` when the stem holds `-fill`, else `-24`. */
  lemma SymbolIdOfCandidate(filename: string)
    requires Is24pxIcon(filename)
    requires !Contains(Stem(filename), SvgExt)
    ensures SymbolIdOf(filename) == GenerateSymbolId(Stem(filename), Contains(Stem(filename), FillMarker))
  {
    IconNameOfCandidate(filename);
    FillMarkerInStem(filename);
  }

  /** The fill marker is doubled: `<base>-fill-24.svg` gets the id
      `icon-octicon-<base>-fill-fill-24`. */
  lemma FillVariantIdDoublesMarker(base: string)
    requires !Contains(base + FillMarker, SvgExt)
    ensures Is24pxIcon(base + FillMarker + SizeSuffix)
    ensures SymbolIdOf(base + FillMarker + SizeSuffix) == IdPrefix + base + FillMarker + FillIdSuffix
  {
    var f := base + FillMarker + SizeSuffix;
    assert f[|f| - |SizeSuffix|..] == SizeSuffix;
    var stem := Stem(f);
    assert stem == base + FillMarker;
    MarkerAppendedIsContained(base);
    SymbolIdOfCandidate(f);
    assert IdPrefix + stem + FillIdSuffix == IdPrefix + base + FillMarker + FillIdSuffix;
  }

  /** A name with `-fill` appended contains `-fill`. */
  lemma MarkerAppendedIsContained(name: string)
    ensures Contains(name + FillMarker, FillMarker)
  {
    assert OccursAt(name + FillMarker, FillMarker, |name|) by {
      assert (name + FillMarker)[|name|..|name| + |FillMarker|] == FillMarker;
    }
  }

  /** Distinct 24px icons whose stems hold no `.svg` get distinct ids, even
      though the fill flag and a `-fill` in the name overlap. */
  lemma CandidateIdsDistinct(f1: string, f2: string)
    requires Is24pxIcon(f1) && Is24pxIcon(f2)
    requires !Contains(Stem(f1), SvgExt) && !Contains(Stem(f2), SvgExt)
    requires f1 != f2
    ensures SymbolIdOf(f1) != SymbolIdOf(f2)
  {
    var s1, s2 := Stem(f1), Stem(f2);
    var fill1, fill2 := Contains(s1, FillMarker), Contains(s2, FillMarker);
    SymbolIdOfCandidate(f1);
    SymbolIdOfCandidate(f2);
    SymbolIdNameAndFlag(s1, s2, fill1);
    SymbolIdNameAndFlag(s1, s2 + FillMarker, false);
    SymbolIdNameAndFlag(s2, s1 + FillMarker, false);
    MarkerAppendedIsContained(s1);
    MarkerAppendedIsContained(s2);
  }

  /** `.svg` holds no `l`, so appending it neither creates nor hides a
      `-fill`. */
  lemma FillMarkerIgnoresExtension(base: string)
    ensures Contains(base + SvgExt, FillMarker) <==> Contains(base, FillMarker)
  {
    var s := base + SvgExt;
    if Contains(base, FillMarker) {
      var k: nat :| k <= |base| && OccursAt(base, FillMarker, k);
      OccursInPrefix(base, SvgExt, FillMarker, k);
    }
    if Contains(s, FillMarker) {
      var k: nat :| k <= |s| && OccursAt(s, FillMarker, k);
      assert s[k..k + 5][4] == s[k + 4] == 'l';
      assert forall j :: |base| <= j < |s| ==> s[j] == SvgExt[j - |base|];
      assert k + 5 <= |base|;
      assert s[k..k + 5] == base[k..k + 5];
      assert OccursAt(base, FillMarker, k);
    }
  }

  /** Without the `.svg`-free stem the ids collide: for every `<base>`,
      `<base>.svg-24.svg` and `<base>-24.svg` are distinct 24px icons with
      the same id, because the `.svg` in the first stem is deleted with the
      extension. */
  lemma ExtensionInStemCollides(base: string)
    ensures Is24pxIcon(base + SvgExt + SizeSuffix) && Is24pxIcon(base + SizeSuffix)
    ensures base + SvgExt + SizeSuffix != base + SizeSuffix
    ensures SymbolIdOf(base + SvgExt + SizeSuffix) == SymbolIdOf(base + SizeSuffix)
  {
    var f1 := base + SvgExt + SizeSuffix;
    var f2 := base + SizeSuffix;
    SuffixedNameIs24px(base + SvgExt);
    SuffixedNameIs24px(base);
    assert |f1| != |f2|;
    IconNameOfCandidate(f1);
    IconNameOfCandidate(f2);
    DropSvgExtConcat(base, SvgExt);
    assert DropSvgExt(SvgExt) == [];
    assert ExtractIconName(f1) == ExtractIconName(f2);
    FillMarkerInStem(f1);
    FillMarkerInStem(f2);
    FillMarkerIgnoresExtension(base);
    assert IsFillVariant(f1) == IsFillVariant(f2);
  }

  /** When `<base>` holds neither `.svg` nor `-fill`, the shared id of the
      colliding pair is `icon-octicon-<base>-24`. */
  lemma ExtensionDeletedFromStem(base: string)
    requires !Contains(base, SvgExt) && !Contains(base, FillMarker)
    ensures Is24pxIcon(base + SvgExt + SizeSuffix)
    ensures SymbolIdOf(base + SvgExt + SizeSuffix) == IdPrefix + base + PlainIdSuffix
  {
    ExtensionInStemCollides(base);
    SuffixedNameIs24px(base);
    SymbolIdOfCandidate(base + SizeSuffix);
  }
}
