/**
 * The few Python `str` operations the engine relies on, stated over `seq<char>`.
 * A Dafny `char` is a Unicode scalar value, so comparing two chars compares code points,
 * as Python does for the one-character strings it iterates over.
 */
module Text {

  /** `"".join(ch for ch in s if ch not in cs)`; with `cs == {c}` it is also `s.replace(c, "")`. */
  function Drop(s: string, cs: set<char>): (r: string)
    ensures |r| <= |s|
  {
    if s == [] then []
    else (if s[0] in cs then [] else [s[0]]) + Drop(s[1..], cs)
  }

  /** `s.count(c)` for a one-character `c`. */
  function Count(s: string, c: char): (n: nat)
    ensures n <= |s|
    ensures n == 0 <==> c !in s
  {
    if s == [] then 0
    else (if s[0] == c then 1 else 0) + Count(s[1..], c)
  }

  /** `s.split(sep)`: the runs between separators, always at least one (possibly empty) part. */
  function Split(s: string, sep: char): (parts: seq<string>)
    ensures |parts| == Count(s, sep) + 1
  {
    if s == [] then [[]]
    else
      var rest := Split(s[1..], sep);
      if s[0] == sep then [[]] + rest
      else [[s[0]] + rest[0]] + rest[1..]
  }

  /** `sep.join(parts)`. */
  function Join(parts: seq<string>, sep: char): string
  {
    if parts == [] then []
    else if |parts| == 1 then parts[0]
    else parts[0] + [sep] + Join(parts[1..], sep)
  }

  /** `"".join(parts)`. */
  function Concat(parts: seq<string>): string
  {
    if parts == [] then [] else parts[0] + Concat(parts[1..])
  }

  /** Every element occurs once. */
  predicate NoDup<T(==)>(s: seq<T>)
  {
    forall i, j | 0 <= i < j < |s| :: s[i] != s[j]
  }

  /** Putting a new element in front keeps every element unique. */
  lemma NoDupPrepend<T>(x: T, s: seq<T>)
    requires NoDup(s) && x !in s
    ensures NoDup([x] + s)
  {
    assert forall k | 1 <= k < |s| + 1 :: ([x] + s)[k] == s[k - 1];
  }

  /** Python's `a < b` on `str`: lexicographic comparison of code points. */
  predicate Less(a: string, b: string)
  {
    if a == [] then b != []
    else if b == [] then false
    else if a[0] != b[0] then a[0] < b[0]
    else Less(a[1..], b[1..])
  }

  /** Python's `str.isspace()` on one character (ASCII and Unicode whitespace). */
  predicate IsSpace(ch: char)
  {
    || '\t' <= ch <= '\r'
    || '\U{1C}' <= ch <= '\U{1F}'
    || ch == ' ' || ch == '\U{85}' || ch == '\U{A0}' || ch == '\U{1680}'
    || '\U{2000}' <= ch <= '\U{200A}'
    || ch == '\U{2028}' || ch == '\U{2029}' || ch == '\U{202F}' || ch == '\U{205F}' || ch == '\U{3000}'
  }

  function StripLeft(s: string): (r: string)
    ensures |r| <= |s|
  {
    if s != [] && IsSpace(s[0]) then StripLeft(s[1..]) else s
  }

  function StripRight(s: string): (r: string)
    ensures |r| <= |s|
  {
    if s != [] && IsSpace(s[|s| - 1]) then StripRight(s[..|s| - 1]) else s
  }

  /** `s.strip()`: leading and trailing whitespace removed. */
  function Strip(s: string): (r: string)
    ensures |r| <= |s|
  {
    StripRight(StripLeft(s))
  }

  // ----- Lemmas about stripping -----

  /** `lstrip` removes a prefix made only of whitespace and stops at the first other character. */
  lemma {:induction false} StripLeftSpec(s: string)
    ensures var r := StripLeft(s);
      && r == s[|s| - |r|..]
      && (r == [] || !IsSpace(r[0]))
      && forall i | 0 <= i < |s| - |r| :: IsSpace(s[i])
  {
    if s != [] && IsSpace(s[0]) {
      StripLeftSpec(s[1..]);
    }
  }

  /** `rstrip` removes a suffix made only of whitespace and stops at the last other character. */
  lemma {:induction false} StripRightSpec(s: string)
    ensures var r := StripRight(s);
      && r == s[..|r|]
      && (r == [] || !IsSpace(r[|r| - 1]))
      && forall i | |r| <= i < |s| :: IsSpace(s[i])
  {
    if s != [] && IsSpace(s[|s| - 1]) {
      StripRightSpec(s[..|s| - 1]);
    }
  }

  /** `strip` leaves neither end blank, and gives the empty string exactly for all-whitespace text. */
  lemma StripSpec(s: string)
    ensures var r := Strip(s);
      && (r == [] || (!IsSpace(r[0]) && !IsSpace(r[|r| - 1])))
      && (r == [] <==> forall i | 0 <= i < |s| :: IsSpace(s[i]))
  {
    var l := StripLeft(s);
    StripLeftSpec(s);
    StripRightSpec(l);
    assert forall i | 0 <= i < |l| :: l[i] == s[|s| - |l| + i];
  }

  // ----- Lemmas about Drop -----

  /** What survives a drop: exactly the characters of `s` outside `cs`. */
  lemma {:induction false} DropMembers(s: string, cs: set<char>)
    ensures forall ch :: ch in Drop(s, cs) <==> ch in s && ch !in cs
  {
    if s != [] {
      DropMembers(s[1..], cs);
      assert forall ch :: ch in s <==> ch == s[0] || ch in s[1..];
    }
  }

  /** One step of `Drop`, for a string that starts with `x`. */
  lemma DropCons(x: char, s: string, cs: set<char>)
    ensures Drop([x] + s, cs) == (if x in cs then [] else [x]) + Drop(s, cs)
  {
    assert ([x] + s)[1..] == s;
  }

  /** One step of `Count`, for a string that starts with `x`. */
  lemma CountCons(x: char, s: string, c: char)
    ensures Count([x] + s, c) == (if x == c then 1 else 0) + Count(s, c)
  {
    assert ([x] + s)[1..] == s;
  }

  /** Dropping characters that do not occur changes nothing. */
  lemma {:induction false} DropNothing(s: string, cs: set<char>)
    requires forall ch | ch in s :: ch !in cs
    ensures Drop(s, cs) == s
  {
    if s != [] {
      DropNothing(s[1..], cs);
    }
  }

  /** Dropping in two passes is dropping the union once. */
  lemma {:induction false} DropDrop(s: string, a: set<char>, b: set<char>)
    ensures Drop(Drop(s, a), b) == Drop(s, a + b)
  {
    if s != [] {
      DropDrop(s[1..], a, b);
      DropAppend(if s[0] in a then [] else [s[0]], Drop(s[1..], a), b);
    }
  }

  /** Dropping distributes over concatenation. */
  lemma {:induction false} DropAppend(x: string, y: string, cs: set<char>)
    ensures Drop(x + y, cs) == Drop(x, cs) + Drop(y, cs)
  {
    if x != [] {
      assert (x + y)[1..] == x[1..] + y;
      DropAppend(x[1..], y, cs);
    } else {
      assert x + y == y;
    }
  }

  /** A drop that keeps the length keeps everything. */
  lemma {:induction false} DropSameLength(s: string, cs: set<char>)
    requires |Drop(s, cs)| == |s|
    ensures forall ch | ch in s :: ch !in cs
  {
    if s != [] {
      assert s[0] !in cs;
      DropSameLength(s[1..], cs);
      assert forall ch | ch in s :: ch == s[0] || ch in s[1..];
    }
  }

  // ----- Lemmas about split and join -----

  /** No part of a split holds the separator. */
  lemma {:induction false} SplitParts(s: string, sep: char)
    ensures forall i | 0 <= i < |Split(s, sep)| :: sep !in Split(s, sep)[i]
  {
    if s != [] {
      SplitParts(s[1..], sep);
    }
  }

  /** Text without the separator is a single part. */
  lemma {:induction false} SplitNone(x: string, sep: char)
    requires sep !in x
    ensures Split(x, sep) == [x]
  {
    if x != [] {
      SplitNone(x[1..], sep);
      assert [x[0]] + x[1..] == x;
    }
  }

  /** The first separator ends the first part; the rest splits on its own. */
  lemma {:induction false} SplitAt(x: string, sep: char, s: string)
    requires sep !in x
    ensures Split(x + [sep] + s, sep) == [x] + Split(s, sep)
  {
    if x == [] {
      assert x + [sep] + s == [sep] + s;
      assert ([sep] + s)[1..] == s;
    } else {
      assert (x + [sep] + s)[1..] == x[1..] + [sep] + s;
      SplitAt(x[1..], sep, s);
      assert [x[0]] + x[1..] == x;
    }
  }

  /** `sep.join(s.split(sep)) == s`. */
  lemma {:induction false} JoinSplit(s: string, sep: char)
    ensures Join(Split(s, sep), sep) == s
  {
    if s != [] {
      JoinSplit(s[1..], sep);
      var rest := Split(s[1..], sep);
      if s[0] == sep {
        assert ([[]] + rest)[1..] == rest;
      } else {
        var parts := [[s[0]] + rest[0]] + rest[1..];
        if |rest| == 1 {
          assert parts == [[s[0]] + rest[0]];
        } else {
          assert parts[1..] == rest[1..];
        }
      }
    }
  }

  /** `"".join(s.split(sep)) == s.replace(sep, "")`. */
  lemma {:induction false} ConcatSplit(s: string, sep: char)
    ensures Concat(Split(s, sep)) == Drop(s, {sep})
  {
    if s != [] {
      ConcatSplit(s[1..], sep);
      var rest := Split(s[1..], sep);
      if s[0] == sep {
        assert ([[]] + rest)[1..] == rest;
      } else {
        var parts := [[s[0]] + rest[0]] + rest[1..];
        assert parts[1..] == rest[1..];
        assert Concat(rest) == rest[0] + Concat(rest[1..]);
      }
    }
  }

  // ----- Small dashed texts -----

  /** Dropping a set holding the dash from `a-b-c` keeps those of a, b, c outside the set. */
  lemma DropDashed(a: char, b: char, c: char, cs: set<char>)
    requires '-' in cs
    ensures Drop([a, '-', b, '-', c], cs) ==
      (if a in cs then [] else [a]) + (if b in cs then [] else [b]) + (if c in cs then [] else [c])
  {
    DropCons(c, [], cs);
    DropCons('-', [c], cs);
    DropCons(b, ['-', c], cs);
    DropCons('-', [b, '-', c], cs);
    DropCons(a, ['-', b, '-', c], cs);
    assert [c] + [] == [c] && ['-'] + [c] == ['-', c] && [b] + ['-', c] == [b, '-', c];
    assert ['-'] + [b, '-', c] == ['-', b, '-', c] && [a] + ['-', b, '-', c] == [a, '-', b, '-', c];
  }

  /** `-` occurs twice in `a-b-c` when none of a, b, c is a dash. */
  lemma CountDashed(a: char, b: char, c: char)
    requires a != '-' && b != '-' && c != '-'
    ensures Count([a, '-', b, '-', c], '-') == 2
  {
    CountCons(c, [], '-');
    CountCons('-', [c], '-');
    CountCons(b, ['-', c], '-');
    CountCons('-', [b, '-', c], '-');
    CountCons(a, ['-', b, '-', c], '-');
    assert [c] + [] == [c] && ['-'] + [c] == ['-', c] && [b] + ['-', c] == [b, '-', c];
    assert ['-'] + [b, '-', c] == ['-', b, '-', c] && [a] + ['-', b, '-', c] == [a, '-', b, '-', c];
  }

  /** The letters of `X -Y-Z`. */
  lemma SpacedDrop(k: char, t: char, b: char)
    requires k !in {'-', ' '} && t !in {'-', ' '} && b !in {'-', ' '}
    ensures Drop([k, ' ', '-', t, '-', b], {'-', ' '}) == [k, t, b]
  {
    assert [k] + [' ', '-', t, '-', b] == [k, ' ', '-', t, '-', b];
    DropDashed(' ', t, b, {'-', ' '});
    DropCons(k, [' ', '-', t, '-', b], {'-', ' '});
  }

  /** The dashes of `X -Y-Z`. */
  lemma SpacedCount(k: char, t: char, b: char)
    requires k != '-' && t != '-' && b != '-'
    ensures Count([k, ' ', '-', t, '-', b], '-') == 2
  {
    assert [k] + [' ', '-', t, '-', b] == [k, ' ', '-', t, '-', b];
    CountDashed(' ', t, b);
    CountCons(k, [' ', '-', t, '-', b], '-');
  }

  /** The dash-separated parts of `X -Y-Z`. */
  lemma SpacedSplit(k: char, t: char, b: char)
    requires k != '-' && t != '-' && b != '-'
    ensures Split([k, ' ', '-', t, '-', b], '-') == [[k, ' '], [t], [b]]
  {
    assert [k, ' ', '-', t, '-', b] == [k, ' '] + ['-'] + ([t] + ['-'] + [b]);
    SplitAt([k, ' '], '-', [t] + ['-'] + [b]);
    SplitAt([t], '-', [b]);
    SplitNone([b], '-');
  }

  /** The letters of `XY-Z-`. */
  lemma GluedDrop(k: char, t: char, b: char)
    requires k !in {'-', ' '} && t !in {'-', ' '} && b !in {'-', ' '}
    ensures Drop([k, t, '-', b, '-'], {'-', ' '}) == [k, t, b]
  {
    assert [k] + [t, '-', b, '-'] == [k, t, '-', b, '-'];
    assert [t] + ['-', b, '-'] == [t, '-', b, '-'];
    assert ['-'] + [b, '-'] == ['-', b, '-'];
    assert [b] + ['-'] == [b, '-'];
    assert ['-'] + [] == ['-'];
    DropCons(k, [t, '-', b, '-'], {'-', ' '});
    DropCons(t, ['-', b, '-'], {'-', ' '});
    DropCons('-', [b, '-'], {'-', ' '});
    DropCons(b, ['-'], {'-', ' '});
    DropCons('-', [], {'-', ' '});
  }

  /** The dashes of `XY-Z-`. */
  lemma GluedCount(k: char, t: char, b: char)
    requires k != '-' && t != '-' && b != '-'
    ensures Count([k, t, '-', b, '-'], '-') == 2
  {
    assert [k] + [t, '-', b, '-'] == [k, t, '-', b, '-'];
    assert [t] + ['-', b, '-'] == [t, '-', b, '-'];
    assert ['-'] + [b, '-'] == ['-', b, '-'];
    assert [b] + ['-'] == [b, '-'];
    CountCons(k, [t, '-', b, '-'], '-');
    CountCons(t, ['-', b, '-'], '-');
    CountCons('-', [b, '-'], '-');
    CountCons(b, ['-'], '-');
  }

  /** Splitting `ab-c-` (no dash among a, b, c) on dashes gives `ab`, `c` and an empty last part. */
  lemma SplitGlued(a: char, b: char, c: char)
    requires a != '-' && b != '-' && c != '-'
    ensures Split([a, b, '-', c, '-'], '-') == [[a, b], [c], []]
  {
    assert [a, b, '-', c, '-'] == [a, b] + ['-'] + ([c] + ['-'] + []);
    SplitAt([a, b], '-', [c] + ['-'] + []);
    SplitAt([c], '-', []);
  }

  /** Text with two separators whose three parts are single characters is `a-b-c`. */
  lemma ThreeSingles(s: string)
    requires Count(s, '-') == 2
    requires forall i | 0 <= i < |Split(s, '-')| :: |Split(s, '-')[i]| == 1
    ensures |s| == 5 && s[1] == '-' && s[3] == '-'
    ensures s[0] != '-' && s[2] != '-' && s[4] != '-'
    ensures s == [Split(s, '-')[0][0], '-', Split(s, '-')[1][0], '-', Split(s, '-')[2][0]]
  {
    var parts := Split(s, '-');
    JoinSplit(s, '-');
    SplitParts(s, '-');
    assert parts[1..][0] == parts[1] && parts[1..][1..] == [parts[2]];
    assert Join(parts[1..], '-') == parts[1] + ['-'] + parts[2];
    var a, b, c := parts[0][0], parts[1][0], parts[2][0];
    assert parts[0] == [a] && parts[1] == [b] && parts[2] == [c];
    assert a in parts[0] && b in parts[1] && c in parts[2];
  }

  // ----- Lemmas about the code-point order -----

  lemma {:induction false} LessIrreflexive(a: string)
    ensures !Less(a, a)
  {
    if a != [] {
      LessIrreflexive(a[1..]);
    }
  }

  lemma {:induction false} LessTransitive(a: string, b: string, c: string)
    requires Less(a, b) && Less(b, c)
    ensures Less(a, c)
  {
    if a != [] && b != [] && c != [] && a[0] == b[0] == c[0] {
      LessTransitive(a[1..], b[1..], c[1..]);
    }
  }

  /** Any two distinct strings are comparable: Python's `str` order is total. */
  lemma {:induction false} LessTotal(a: string, b: string)
    ensures a == b || Less(a, b) || Less(b, a)
  {
    if a != [] && b != [] && a[0] == b[0] {
      LessTotal(a[1..], b[1..]);
      if a[1..] == b[1..] {
        assert a == [a[0]] + a[1..] && b == [b[0]] + b[1..];
      }
    }
  }

  lemma {:induction false} LessAsymmetric(a: string, b: string)
    requires Less(a, b)
    ensures !Less(b, a)
  {
    if Less(b, a) {
      LessTransitive(a, b, a);
      LessIrreflexive(a);
    }
  }
}
