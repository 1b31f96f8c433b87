/**
 * Canonicalisation of Arabic text (Data_Structures/normalization.py): whitespace and tatweel
 * removal, Alef unification, diacritic stripping (all of them for roots and words, all but
 * shadda for patterns), and the dashed-root format check used by derivation.
 */
module Normalization {
  import opened Wrappers
  import opened Text

  /** A Python argument that may or may not be a `str` (the functions that test `isinstance`). */
  datatype Arg = Str(s: string) | Other

  const Shadda: char := '\U{0651}'
  const Tatweel: char := '\U{0640}'
  const Alef: char := '\U{0627}'

  /** Tanwin fath/damm/kasr, fatha, damma, kasra, shadda, sukun and superscript Alef. */
  const Diacritics: set<char> :=
    {'\U{064B}', '\U{064C}', '\U{064D}', '\U{064E}', '\U{064F}', '\U{0650}', '\U{0651}', '\U{0652}', '\U{0670}'}

  const DiacriticsNoShadda: set<char> := Diacritics - {Shadda}

  /** Alef with hamza above, with hamza below, with madda, and Alef wasla. */
  const AlefVariants: set<char> := {'\U{0623}', '\U{0625}', '\U{0622}', '\U{0671}'}

  /** What `_normalize_base` deletes outright: space, tab, newline and tatweel. */
  const Blanks: set<char> := {' ', '\t', '\n', Tatweel}

  /** `"".join(ALEF_VARIANTS.get(ch, ch) for ch in s)`. */
  function UnifyAlef(s: string): (r: string)
    ensures |r| == |s|
  {
    seq(|s|, i requires 0 <= i < |s| => if s[i] in AlefVariants then Alef else s[i])
  }

  /**
   * `_normalize_base`: blanks removed, then Alef variants unified. The source returns `""` early
   * for empty text, which both steps map to itself anyway, and removes the four blanks with one
   * `replace` each; `NormalizeBaseStepwise` shows that is the same.
   */
  function NormalizeBase(text: string): string
  {
    UnifyAlef(Drop(text, Blanks))
  }

  /** `normalize_common`: the base normalisation, then every diacritic (shadda included) removed. */
  function NormalizeCommon(text: string): string
  {
    Drop(NormalizeBase(text), Diacritics)
  }

  /** `normalize_root`: `normalize_common` with every dash removed as well. */
  function NormalizeRoot(rawRoot: string): string
  {
    Drop(NormalizeCommon(rawRoot), {'-'})
  }

  /** `normalize_pattern`: the base normalisation, then every diacritic except shadda removed. */
  function NormalizePattern(pattern: string): string
  {
    Drop(NormalizeBase(pattern), DiacriticsNoShadda)
  }

  /** `extract_root_letters`: the three characters of the normalised root, if there are exactly three. */
  function ExtractRootLetters(rawRoot: string): (r: Option<(char, char, char)>)
    ensures r.Some? <==> |NormalizeRoot(rawRoot)| == 3
    ensures r.Some? ==> [r.value.0, r.value.1, r.value.2] == NormalizeRoot(rawRoot)
  {
    var normalized := NormalizeRoot(rawRoot);
    if |normalized| != 3 then None
    else Some((normalized[0], normalized[1], normalized[2]))
  }

  /** `is_arabic_letter`: the inclusive code-point range U+0621..U+064A. */
  predicate IsArabicLetter(ch: char)
  {
    '\U{0621}' <= ch <= '\U{064A}'
  }

  /** `validate_dashed_root`: a `str` whose normalised form passes the dash checks below. */
  predicate ValidateDashedRoot(rawRoot: Arg)
  {
    if rawRoot.Other? then false
    else DashChecks(NormalizeCommon(rawRoot.s))
  }

  /**
   * The checks `validate_dashed_root` makes on the normalised text, in its order: exactly two
   * dashes, three non-empty parts, three letters once joined, all of them Arabic letters.
   */
  predicate DashChecks(normalized: string)
  {
    if Count(normalized, '-') != 2 then false
    else
      var parts := Split(normalized, '-');
      if |parts| != 3 || !(forall i | 0 <= i < |parts| :: parts[i] != []) then false
      else
        var letters := Concat(parts);
        if |letters| != 3 then false
        else forall ch | ch in letters :: IsArabicLetter(ch)
  }

  /** The shape `X-Y-Z` with three Arabic letters. */
  predicate DashedForm(s: string)
  {
    && |s| == 5 && s[1] == '-' && s[3] == '-'
    && IsArabicLetter(s[0]) && IsArabicLetter(s[2]) && IsArabicLetter(s[4])
  }

  // ----- Normalisation lemmas -----

  /** Alef unification leaves no Alef variant, and changes nothing in text that has none. */
  lemma UnifyAlefMembers(s: string)
    ensures forall ch | ch in UnifyAlef(s) :: ch == Alef || (ch in s && ch !in AlefVariants)
    ensures (forall ch | ch in s :: ch !in AlefVariants) ==> UnifyAlef(s) == s
  {
    var r := UnifyAlef(s);
    forall ch | ch in r ensures ch == Alef || (ch in s && ch !in AlefVariants) {
      var i :| 0 <= i < |r| && r[i] == ch;
    }
  }

  /** What each normal form is free of: blanks and Alef variants always, then the diacritics and dashes each form removes. */
  lemma NormalFormMembers(text: string)
    ensures forall ch | ch in NormalizeBase(text) :: ch !in Blanks && ch !in AlefVariants
    ensures forall ch | ch in NormalizeCommon(text) :: ch !in Blanks && ch !in AlefVariants && ch !in Diacritics
    ensures forall ch | ch in NormalizeRoot(text) :: ch != '-' && ch !in Blanks && ch !in AlefVariants && ch !in Diacritics
    ensures forall ch | ch in NormalizePattern(text) :: ch !in Blanks && ch !in AlefVariants && ch !in DiacriticsNoShadda
  {
    var d := Drop(text, Blanks);
    DropMembers(text, Blanks);
    UnifyAlefMembers(d);
    var b := NormalizeBase(text);
    DropMembers(b, Diacritics);
    DropMembers(b, DiacriticsNoShadda);
    DropMembers(NormalizeCommon(text), {'-'});
  }

  /** The four successive `replace` calls of `_normalize_base` remove exactly the blanks. */
  lemma NormalizeBaseStepwise(text: string)
    ensures NormalizeBase(text) == UnifyAlef(Drop(Drop(Drop(Drop(text, {' '}), {'\t'}), {'\n'}), {Tatweel}))
    ensures NormalizeBase([]) == []
  {
    DropDrop(text, {' '}, {'\t'});
    DropDrop(Drop(text, {' '}), {'\t'}, {'\n'});
    DropDrop(text, {' '} + {'\t'}, {'\n'});
    DropDrop(Drop(Drop(Drop(text, {' '}), {'\t'}), {'\n'}), {Tatweel}, {});
    DropDrop(text, {' '} + {'\t'} + {'\n'}, {Tatweel});
    assert {' '} + {'\t'} + {'\n'} + {Tatweel} == Blanks;
  }

  /** Text that holds no blank and no Alef variant is left alone by the base normalisation. */
  lemma NormalizeBaseFixes(s: string)
    requires forall ch | ch in s :: ch !in Blanks && ch !in AlefVariants
    ensures NormalizeBase(s) == s
  {
    DropNothing(s, Blanks);
  }

  /** Text with no blank, Alef variant or diacritic is already in both normal forms. */
  lemma NormalFormsFix(s: string)
    requires forall ch | ch in s :: ch !in Blanks && ch !in AlefVariants && ch !in Diacritics
    ensures NormalizeCommon(s) == s && NormalizePattern(s) == s
  {
    NormalizeBaseFixes(s);
    DropNothing(s, Diacritics);
    DropNothing(s, DiacriticsNoShadda);
  }

  /** Pattern text whose only diacritic is shadda is already in pattern normal form. */
  lemma PatternFormFixes(s: string)
    requires forall ch | ch in s :: ch !in Blanks && ch !in AlefVariants && ch !in DiacriticsNoShadda
    ensures NormalizePattern(s) == s
  {
    NormalizeBaseFixes(s);
    DropNothing(s, DiacriticsNoShadda);
  }

  /** Applying `normalize_common` twice is applying it once. */
  lemma NormalizeCommonIdempotent(x: string)
    ensures NormalizeCommon(NormalizeCommon(x)) == NormalizeCommon(x)
  {
    var n := NormalizeCommon(x);
    NormalFormMembers(x);
    NormalizeBaseFixes(n);
    DropNothing(n, Diacritics);
  }

  /** Applying `normalize_pattern` twice is applying it once. */
  lemma NormalizePatternIdempotent(x: string)
    ensures NormalizePattern(NormalizePattern(x)) == NormalizePattern(x)
  {
    var n := NormalizePattern(x);
    NormalFormMembers(x);
    NormalizeBaseFixes(n);
    DropNothing(n, DiacriticsNoShadda);
  }

  /**
   * The two modes differ only in shadda: removing shadda from the pattern form gives the
   * common form, and normalising the pattern form again in common mode gives it too.
   */
  lemma PatternModeKeepsOnlyShadda(x: string)
    ensures Drop(NormalizePattern(x), {Shadda}) == NormalizeCommon(x)
    ensures NormalizeCommon(NormalizePattern(x)) == NormalizeCommon(x)
  {
    var b := NormalizeBase(x);
    var p := NormalizePattern(x);
    NormalFormMembers(x);
    DropDrop(b, DiacriticsNoShadda, {Shadda});
    assert DiacriticsNoShadda + {Shadda} == Diacritics;
    NormalizeBaseFixes(p);
    DropDrop(b, DiacriticsNoShadda, Diacritics);
    assert DiacriticsNoShadda + Diacritics == Diacritics;
  }

  /** Alef unification works character by character, so it distributes over concatenation. */
  lemma UnifyAlefAppend(x: string, y: string)
    ensures UnifyAlef(x + y) == UnifyAlef(x) + UnifyAlef(y)
  {
    assert forall i | 0 <= i < |x + y| :: UnifyAlef(x + y)[i] == (UnifyAlef(x) + UnifyAlef(y))[i];
  }

  /** `normalize_common` of a concatenation is the concatenation of the two normal forms. */
  lemma NormalizeCommonAppend(x: string, y: string)
    ensures NormalizeCommon(x + y) == NormalizeCommon(x) + NormalizeCommon(y)
  {
    DropAppend(x, y, Blanks);
    UnifyAlefAppend(Drop(x, Blanks), Drop(y, Blanks));
    DropAppend(UnifyAlef(Drop(x, Blanks)), UnifyAlef(Drop(y, Blanks)), Diacritics);
  }

  /**
   * A diacritic (shadda included), a blank or a tatweel anywhere in the text makes no
   * difference to `normalize_common`.
   */
  lemma NormalizeCommonIgnores(x: string, d: char, y: string)
    requires d in Diacritics || d in Blanks
    ensures NormalizeCommon(x + [d] + y) == NormalizeCommon(x + y)
  {
    NormalizeCommonAppend(x + [d], y);
    NormalizeCommonAppend(x, [d]);
    NormalizeCommonAppend(x, y);
    assert NormalizeCommon([d]) == [] by {
      if d in Blanks {
        assert Drop([d], Blanks) == [];
      } else {
        assert Drop([d], Blanks) == [d];
        assert UnifyAlef([d]) == [d];
      }
    }
  }

  /** No diacritic, and neither tatweel nor the bare Alef, counts as an Arabic letter; the Alef wasla does not either. */
  lemma DiacriticsAreNotLetters()
    ensures forall ch | ch in Diacritics :: !IsArabicLetter(ch)
    ensures !IsArabicLetter('\U{0671}') && IsArabicLetter(Tatweel)
  {
  }

  // ----- The dashed-root check -----

  /** One step of `split`, for a string that starts with `x`. */
  lemma SplitCons(x: char, s: string, sep: char)
    ensures Split([x] + s, sep) ==
      if x == sep then [[]] + Split(s, sep) else [[x] + Split(s, sep)[0]] + Split(s, sep)[1..]
  {
    assert ([x] + s)[1..] == s;
  }

  /** Splitting `a-b-c` (no dash among a, b, c) on dashes gives the three one-letter parts. */
  lemma SplitDashed(a: char, b: char, c: char)
    requires a != '-' && b != '-' && c != '-'
    ensures Split([a, '-', b, '-', c], '-') == [[a], [b], [c]]
  {
    assert [a, '-', b, '-', c] == [a] + ['-'] + ([b] + ['-'] + [c]);
    SplitAt([a], '-', [b] + ['-'] + [c]);
    SplitAt([b], '-', [c]);
    SplitNone([c], '-');
  }

  /** `"".join` and `"-".join` of three parts, written out. */
  lemma ThreeParts(parts: seq<string>, sep: char)
    requires |parts| == 3
    ensures Concat(parts) == parts[0] + parts[1] + parts[2]
    ensures Join(parts, sep) == parts[0] + [sep] + parts[1] + [sep] + parts[2]
  {
    assert parts[1..][0] == parts[1];
    assert parts[1..][1..] == [parts[2]];
    assert [parts[2]][1..] == [];
    assert Concat([parts[2]]) == parts[2] + Concat([]);
    assert Join(parts[1..], sep) == parts[1] + [sep] + parts[2];
  }

  /**
   * The dash checks accept exactly the texts `X-Y-Z` with three Arabic letters: two dashes,
   * three non-empty parts and three letters together force every part to be one letter.
   */
  lemma DashChecksShape(n: string)
    ensures DashChecks(n) <==> DashedForm(n)
  {
    if DashChecks(n) {
      var parts := Split(n, '-');
      ThreeParts(parts, '-');
      assert |parts[0]| == 1 && |parts[1]| == 1 && |parts[2]| == 1;
      JoinSplit(n, '-');
      assert n == [parts[0][0], '-', parts[1][0], '-', parts[2][0]];
      assert Concat(parts) == [n[0], n[2], n[4]];
      assert n[0] in Concat(parts) && n[2] in Concat(parts) && n[4] in Concat(parts);
    }
    if DashedForm(n) {
      assert n == [n[0], '-', n[2], '-', n[4]];
      SplitDashed(n[0], n[2], n[4]);
      var parts := Split(n, '-');
      ThreeParts(parts, '-');
      assert Concat(parts) == [n[0], n[2], n[4]];
      assert forall ch | ch in Concat(parts) :: ch == n[0] || ch == n[2] || ch == n[4];
    }
  }

  /** `validate_dashed_root` accepts a `str` exactly when its normalised form is `X-Y-Z`. */
  lemma ValidateDashedRootShape(raw: string)
    ensures ValidateDashedRoot(Str(raw)) <==> DashedForm(NormalizeCommon(raw))
  {
    DashChecksShape(NormalizeCommon(raw));
  }

  /** Dropping the dashes of `X-Y-Z` leaves `XYZ`. */
  lemma DropDashes(n: string)
    requires DashedForm(n)
    ensures Drop(n, {'-'}) == [n[0], n[2], n[4]]
  {
    var cs: set<char> := {'-'};
    assert n[4..][1..] == [];
    assert Drop(n[4..], cs) == [n[4]];
    assert n[3..][1..] == n[4..];
    assert Drop(n[3..], cs) == [n[4]];
    assert n[2..][1..] == n[3..];
    assert Drop(n[2..], cs) == [n[2], n[4]];
    assert n[1..][1..] == n[2..];
    assert Drop(n[1..], cs) == [n[2], n[4]];
  }

  /** A root that passes `validate_dashed_root` always yields its three letters, in order. */
  lemma ValidRootHasLetters(raw: string)
    requires ValidateDashedRoot(Str(raw))
    ensures var n := NormalizeCommon(raw);
      |n| == 5 && ExtractRootLetters(raw) == Some((n[0], n[2], n[4]))
  {
    ValidateDashedRootShape(raw);
    DropDashes(NormalizeCommon(raw));
  }
}
