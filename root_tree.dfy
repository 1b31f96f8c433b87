/**
 * The root store (Data_Structures/root_tree.py): the dashed-root format check with its error
 * messages, the compact and dashed forms of a root, a set-backed derived-word list, and an
 * unbalanced binary search tree keyed by compact roots under Python's code-point order.
 */
module RootTree {
  import opened Wrappers
  import opened Text
  import opened Normalization
  import opened LinkedList

  // ----- Normalisation and the dashed-root check -----

  /**
   * `normalize_arabic`: space, tab, newline and tatweel removed, Alef variants unified, then
   * every diacritic (shadda included) removed. The empty text is returned at once.
   */
  function NormalizeArabic(text: string): string
  {
    if text == [] then []
    else Drop(UnifyAlef(Drop(text, Blanks)), Diacritics)
  }

  const NoLetters := "Root must contain letters."
  const NotArabic := "Only Arabic letters are allowed."
  const NotThreeLetters := "Root must have exactly 3 letters."
  const NotTwoDashes := "Root must contain exactly two dashes (example: \U{0643}-\U{062A}-\U{0628})."
  const EmptyPart := "Missing letter between dashes."
  const LongPart := "Each part must be a single letter."

  /**
   * `validate_dashed_root_with_reason`: `None` for an acceptable root, otherwise the message of
   * the first failed check. The letter checks look at the raw text with dashes and spaces removed
   * (two `replace` calls, one `Drop` here); the structure checks look at the raw text itself.
   */
  function RootError(rawRoot: string): Option<string>
  {
    var lettersOnly := Drop(rawRoot, {'-', ' '});
    if lettersOnly == [] then Some(NoLetters)
    else if !(forall i | 0 <= i < |lettersOnly| :: IsArabicLetter(lettersOnly[i])) then Some(NotArabic)
    else if |lettersOnly| != 3 then Some(NotThreeLetters)
    else if Count(rawRoot, '-') != 2 then Some(NotTwoDashes)
    else
      var parts := Split(rawRoot, '-');
      if !(forall i | 0 <= i < |parts| :: parts[i] != []) then Some(EmptyPart)
      else if !(forall i | 0 <= i < |parts| :: |parts[i]| == 1) then Some(LongPart)
      else None
  }

  /** `validate_dashed_root` of root_tree.py: no reason to refuse. */
  predicate ValidDashedRoot(rawRoot: string)
  {
    RootError(rawRoot).None?
  }

  /** `to_compact_root`: the normalised text with its dashes removed. */
  function ToCompactRoot(rawRoot: string): string
  {
    Drop(NormalizeArabic(rawRoot), {'-'})
  }

  /** Each character of `c` as a one-character string: what `"-".join` iterates over. */
  function Singles(c: string): (parts: seq<string>)
  {
    seq(|c|, i requires 0 <= i < |c| => [c[i]])
  }

  /** `format_dashed`: the characters of the compact root joined by dashes. */
  function FormatDashed(compactRoot: string): string
  {
    Join(Singles(compactRoot), '-')
  }

  // ----- Lemmas about normalisation and the root format -----

  /**
   * `normalize_arabic` is `normalize_common` of normalization.py: it leaves no blank, Alef
   * variant or diacritic, and applying it twice is applying it once.
   */
  lemma NormalizeArabicIsCommon(text: string)
    ensures NormalizeArabic(text) == NormalizeCommon(text)
    ensures forall ch | ch in NormalizeArabic(text) :: ch !in Blanks && ch !in AlefVariants && ch !in Diacritics
    ensures NormalizeArabic(NormalizeArabic(text)) == NormalizeArabic(text)
  {
    NormalizeBaseStepwise([]);
    NormalFormMembers(text);
    NormalizeCommonIdempotent(text);
    NormalizeBaseStepwise(NormalizeCommon(text));
  }

  /**
   * The six checks together accept exactly the texts `X-Y-Z` of three Arabic letters: every
   * other text gets a reason.
   */
  lemma RootErrorShape(rawRoot: string)
    ensures RootError(rawRoot).None? <==> DashedForm(rawRoot)
  {
    if RootError(rawRoot).None? {
      AcceptedIsDashed(rawRoot);
    }
    if DashedForm(rawRoot) {
      DashedIsAccepted(rawRoot);
    }
  }

  lemma AcceptedIsDashed(rawRoot: string)
    requires RootError(rawRoot).None?
    ensures DashedForm(rawRoot)
  {
    ThreeSingles(rawRoot);
    var a, b, c := rawRoot[0], rawRoot[2], rawRoot[4];
    assert rawRoot == [a, '-', b, '-', c];
    var lettersOnly := Drop(rawRoot, {'-', ' '});
    assert lettersOnly == [a, b, c] by {
      DropDashed(a, b, c, {'-', ' '});
    }
    assert IsArabicLetter(lettersOnly[0]) && IsArabicLetter(lettersOnly[1]) && IsArabicLetter(lettersOnly[2]);
  }

  lemma DashedIsAccepted(rawRoot: string)
    requires DashedForm(rawRoot)
    ensures RootError(rawRoot).None?
  {
    var a, b, c := rawRoot[0], rawRoot[2], rawRoot[4];
    assert rawRoot == [a, '-', b, '-', c];
    assert Drop(rawRoot, {'-', ' '}) == [a, b, c] by {
      DropDashed(a, b, c, {'-', ' '});
    }
    CountDashed(a, b, c);
    SplitDashed(a, b, c);
  }

  /** The compact form of `X-Y-Z` with no tatweel and no Alef variant among X, Y, Z is `XYZ`. */
  lemma CompactOfDashed(rawRoot: string)
    requires DashedForm(rawRoot)
    requires forall i | 0 <= i < 5 :: rawRoot[i] != Tatweel && rawRoot[i] !in AlefVariants
    ensures ToCompactRoot(rawRoot) == [rawRoot[0], rawRoot[2], rawRoot[4]]
  {
    DiacriticsAreNotLetters();
    assert forall ch | ch in rawRoot :: ch !in Blanks && ch !in AlefVariants && ch !in Diacritics by {
      forall ch | ch in rawRoot ensures ch !in Blanks && ch !in AlefVariants && ch !in Diacritics {
        var i :| 0 <= i < 5 && rawRoot[i] == ch;
      }
    }
    NormalFormsFix(rawRoot);
    NormalizeArabicIsCommon(rawRoot);
    DropDashes(rawRoot);
  }

  /** `format_dashed` of a three-letter compact root. */
  lemma FormatThree(a: char, b: char, c: char)
    ensures FormatDashed([a, b, c]) == [a, '-', b, '-', c]
  {
    var parts := Singles([a, b, c]);
    ThreeParts(parts, '-');
  }

  /**
   * Round trip from the dashed form: a valid root written without tatweel or Alef variants
   * comes back unchanged from `format_dashed(to_compact_root(r))`.
   */
  lemma DashedRoundTrip(rawRoot: string)
    requires ValidDashedRoot(rawRoot)
    requires forall ch | ch in rawRoot :: ch != Tatweel && ch !in AlefVariants
    ensures FormatDashed(ToCompactRoot(rawRoot)) == rawRoot
  {
    RootErrorShape(rawRoot);
    assert forall i | 0 <= i < 5 :: rawRoot[i] in rawRoot;
    CompactOfDashed(rawRoot);
    FormatThree(rawRoot[0], rawRoot[2], rawRoot[4]);
    assert rawRoot == [rawRoot[0], '-', rawRoot[2], '-', rawRoot[4]];
  }

  /** One step of `format_dashed`: the first character, a dash, and the rest formatted. */
  lemma FormatCons(c: string)
    requires |c| >= 2
    ensures FormatDashed(c) == [c[0], '-'] + FormatDashed(c[1..])
  {
    assert Singles(c)[1..] == Singles(c[1..]);
  }

  /** The characters of `format_dashed(c)`: those of c and dashes. */
  lemma {:induction false} FormatMembers(c: string)
    ensures forall ch | ch in FormatDashed(c) :: ch == '-' || ch in c
  {
    if |c| == 1 {
      assert FormatDashed(c) == c;
    } else if |c| >= 2 {
      FormatCons(c);
      FormatMembers(c[1..]);
    }
  }

  /** Removing the dashes of `format_dashed(c)` gives back c when c has no dash. */
  lemma {:induction false} DropFormatDashes(c: string)
    requires forall i | 0 <= i < |c| :: c[i] != '-'
    ensures Drop(FormatDashed(c), {'-'}) == c
  {
    if |c| == 1 {
      assert FormatDashed(c) == [c[0]];
      assert [c[0]][1..] == [];
    } else if |c| >= 2 {
      FormatCons(c);
      DropFormatDashes(c[1..]);
      var rest := FormatDashed(c[1..]);
      DropAppend([c[0], '-'], rest, {'-'});
      assert [c[0], '-'][1..] == ['-'] && ['-'][1..] == [];
      assert c == [c[0]] + c[1..];
    }
  }

  /** What a compact root is made of: no dash, blank, Alef variant or diacritic. */
  predicate CompactForm(c: string)
  {
    forall ch | ch in c :: ch != '-' && ch !in Blanks && ch !in AlefVariants && ch !in Diacritics
  }

  /** Every compact form `to_compact_root` gives is in that form. */
  lemma CompactRootForm(rawRoot: string)
    ensures CompactForm(ToCompactRoot(rawRoot))
  {
    NormalizeArabicIsCommon(rawRoot);
    DropMembers(NormalizeArabic(rawRoot), {'-'});
  }

  /**
   * Round trip from the compact form: a compact root already in normal form and without
   * dashes comes back unchanged from `to_compact_root(format_dashed(c))`.
   */
  lemma CompactRoundTrip(c: string)
    requires CompactForm(c)
    ensures ToCompactRoot(FormatDashed(c)) == c
  {
    var f := FormatDashed(c);
    FormatMembers(c);
    DiacriticsAreNotLetters();
    NormalFormsFix(f);
    NormalizeArabicIsCommon(f);
    assert forall i | 0 <= i < |c| :: c[i] in c;
    DropFormatDashes(c);
  }

  /** The reasons the checks give, in their order, on small texts. */
  lemma RootErrorNoLetters()
    ensures RootError("- -") == Some(NoLetters)
  {
  }

  lemma RootErrorNotArabic()
    ensures RootError("k-t-b") == Some(NotArabic)
  {
    DropDashed('k', 't', 'b', {'-', ' '});
    assert "k-t-b" == ['k', '-', 't', '-', 'b'];
    assert !IsArabicLetter(Drop("k-t-b", {'-', ' '})[0]);
  }

  lemma RootErrorTwoLetters()
    ensures RootError("\U{0643}-\U{062A}") == Some(NotThreeLetters)
  {
  }

  lemma RootErrorNoDashes()
    ensures RootError("\U{0643}\U{062A}\U{0628}") == Some(NotTwoDashes)
  {
  }

  /** Two letters glued together and a trailing dash: the three-part split has an empty part. */
  lemma RootErrorEmptyPart(k: char, t: char, b: char)
    requires IsArabicLetter(k) && IsArabicLetter(t) && IsArabicLetter(b)
    ensures RootError([k, t, '-', b, '-']) == Some(EmptyPart)
  {
    var s := [k, t, '-', b, '-'];
    var lettersOnly, parts := Drop(s, {'-', ' '}), Split(s, '-');
    GluedDrop(k, t, b);
    GluedCount(k, t, b);
    SplitGlued(k, t, b);
    assert forall i | 0 <= i < |lettersOnly| :: IsArabicLetter(lettersOnly[i]);
    assert parts[2] == [];
  }

  /** A space glued to a letter passes the letter checks but makes that part two characters long. */
  lemma RootErrorLongPart(k: char, t: char, b: char)
    requires IsArabicLetter(k) && IsArabicLetter(t) && IsArabicLetter(b)
    ensures RootError([k, ' ', '-', t, '-', b]) == Some(LongPart)
  {
    var s := [k, ' ', '-', t, '-', b];
    var lettersOnly, parts := Drop(s, {'-', ' '}), Split(s, '-');
    SpacedDrop(k, t, b);
    SpacedCount(k, t, b);
    SpacedSplit(k, t, b);
    assert forall i | 0 <= i < |lettersOnly| :: IsArabicLetter(lettersOnly[i]);
    assert forall i | 0 <= i < |parts| :: parts[i] != [];
    assert |parts[0]| != 1;
  }

  // ----- The derived-word list -----

  /** Each node of `spine` links to the next, and the last one to nothing. */
  ghost predicate Linked(spine: seq<DerivedWordNode>)
    reads set i | 0 <= i < |spine| :: spine[i]
  {
    && (forall i {:trigger spine[i].next} | 0 <= i < |spine| - 1 :: spine[i].next == spine[i + 1])
    && (spine != [] ==> spine[|spine| - 1].next == null)
  }

  /** A new node linked to the old head makes a linked spine one longer. */
  lemma LinkedPrepend(node: DerivedWordNode, spine: seq<DerivedWordNode>)
    requires Linked(spine) && node.next == (if spine == [] then null else spine[0])
    ensures Linked([node] + spine)
  {
    var s := [node] + spine;
    assert forall j | 1 <= j < |s| :: s[j] == spine[j - 1];
  }

  /** The words of a spine one node longer are that node's word and the old words. */
  lemma WordsPrepend(node: DerivedWordNode, spine: seq<DerivedWordNode>, words: seq<string>)
    requires |spine| == |words| && forall i | 0 <= i < |spine| :: spine[i].word == words[i]
    ensures forall i | 0 <= i < |spine| + 1 :: ([node] + spine)[i].word == ([node.word] + words)[i]
  {
    assert forall j | 1 <= j < |spine| + 1 :: ([node] + spine)[j] == spine[j - 1];
  }

  /**
   * `DerivedWordList` of root_tree.py: the same newest-first linked list as linked_list.py, with
   * a set of its words beside it so that membership is a set lookup.
   */
  class DerivedWordList {
    var head: DerivedWordNode?
    /** `_words_set`. */
    var wordSet: set<string>
    /** `_size`. */
    var size: nat
    /** The nodes reachable from `head`, in link order. */
    ghost var spine: seq<DerivedWordNode>
    /** The words those nodes hold, newest first. */
    ghost var words: seq<string>
    ghost var Repr: set<object>

    ghost predicate Valid()
      reads this, Repr
      ensures Valid() ==> this in Repr
    {
      && this in Repr
      && |spine| == |words|
      && (forall i | 0 <= i < |spine| :: spine[i] in Repr)
      && head == (if spine == [] then null else spine[0])
      && Linked(spine)
      && (forall i {:trigger words[i]} | 0 <= i < |spine| :: spine[i].word == words[i])
      && NoDup(spine)
      && NoDup(words)
      && (forall w :: w in wordSet <==> w in words)
      && size == |words|
    }

    /** `__init__`: an empty list. */
    constructor ()
      ensures Valid() && fresh(Repr) && words == []
    {
      head := null;
      wordSet := {};
      size := 0;
      spine := [];
      words := [];
      Repr := {this};
    }

    /** `add`: refuse a word already in the set, otherwise record it and prepend it. */
    method Add(word: string) returns (added: bool)
      requires Valid()
      modifies this
      ensures Valid() && fresh(Repr - old(Repr))
      ensures added <==> word !in old(words)
      ensures words == AddWord(old(words), word)
    {
      if word in wordSet {
        return false;
      }
      Prepend(word);
      return true;
    }

    /** The second half of `add`, for a word not yet in the list: the new node goes in front. */
    method Prepend(word: string)
      requires Valid() && word !in words
      modifies this
      ensures Valid() && fresh(Repr - old(Repr))
      ensures words == [word] + old(words)
    {
      wordSet := wordSet + {word};
      ghost var s0, w0 := spine, words;
      var node := new DerivedWordNode(word);
      assert node !in s0;
      node.next := head;
      head := node;
      size := size + 1;
      spine := [node] + s0;
      words := [word] + w0;
      Repr := Repr + {node};
      LinkedPrepend(node, s0);
      WordsPrepend(node, s0, w0);
      AddWordKeepsNoDup(w0, word);
      NoDupPrepend(node, s0);
    }

    /** `contains`: a set lookup. */
    method Contains(word: string) returns (found: bool)
      requires Valid()
      ensures found <==> word in words
    {
      return word in wordSet;
    }

    /** `to_list`: the words newest first; no word twice, and as many as `len` reports. */
    method ToList() returns (ws: seq<string>)
      requires Valid()
      ensures ws == words
      ensures NoDup(ws) && |ws| == size
    {
      ws := [];
      var current := head;
      ghost var i := 0;
      while current != null
        invariant 0 <= i <= |spine|
        invariant i < |spine| ==> current == spine[i]
        invariant i == |spine| ==> current == null
        invariant ws == words[..i]
        decreases |spine| - i
      {
        ws := ws + [current.word];
        current := current.next;
        i := i + 1;
      }
      assert words[..i] == words;
    }

    /** `__len__`. */
    method Len() returns (n: nat)
      requires Valid()
      ensures n == |words|
    {
      return size;
    }
  }

  // ----- The tree shape -----

  /**
   * The shape of the tree below a `RootNode`: a compact root, the derived-word list it owns,
   * and its two subtrees. `Leaf` is Python's `None`.
   */
  datatype Tree = Leaf | Node(left: Tree, key: string, derived: DerivedWordList, right: Tree)

  /** Each compact root of the tree and the list its node owns. */
  function Lists(t: Tree): map<string, DerivedWordList>
  {
    if t.Leaf? then map[] else (Lists(t.left) + Lists(t.right))[t.key := t.derived]
  }

  /** The compact roots of the tree. */
  function Keys(t: Tree): set<string>
  {
    if t.Leaf? then {} else Keys(t.left) + {t.key} + Keys(t.right)
  }

  /** The search-tree order: every key on the left is smaller, every key on the right larger. */
  predicate Ordered(t: Tree)
  {
    t.Node? ==>
      && Ordered(t.left) && Ordered(t.right)
      && (forall k | k in Keys(t.left) :: Less(k, t.key))
      && (forall k | k in Keys(t.right) :: Less(t.key, k))
  }

  function NodeCount(t: Tree): nat
  {
    if t.Leaf? then 0 else NodeCount(t.left) + 1 + NodeCount(t.right)
  }

  /** `inorder`: left subtree, the node's key, right subtree. */
  function Inorder(t: Tree): seq<string>
  {
    if t.Leaf? then [] else Inorder(t.left) + [t.key] + Inorder(t.right)
  }

  /** `height`: 0 for no tree, otherwise one more than the taller subtree. */
  function TreeHeight(t: Tree): nat
  {
    if t.Leaf? then 0 else 1 + Max(TreeHeight(t.left), TreeHeight(t.right))
  }

  function Max(a: nat, b: nat): nat
  {
    if a < b then b else a
  }

  function Pow2(n: nat): nat
  {
    if n == 0 then 1 else 2 * Pow2(n - 1)
  }

  /** Strictly increasing in Python's `str` order. */
  predicate Increasing(s: seq<string>)
  {
    forall i, j | 0 <= i < j < |s| :: Less(s[i], s[j])
  }

  /** The insertion `insert` performs: descend by comparison and attach a new node where it falls off. */
  function TreeInsert(t: Tree, k: string, l: DerivedWordList): Tree
  {
    if t.Leaf? then Node(Leaf, k, l, Leaf)
    else if k == t.key then t
    else if Less(k, t.key) then Node(TreeInsert(t.left, k, l), t.key, t.derived, t.right)
    else Node(t.left, t.key, t.derived, TreeInsert(t.right, k, l))
  }

  // ----- Lemmas about the tree shape -----

  /** The map's keys are the tree's keys. */
  lemma {:induction false} ListsKeys(t: Tree)
    ensures Lists(t).Keys == Keys(t)
  {
    if t.Node? {
      ListsKeys(t.left);
      ListsKeys(t.right);
    }
  }

  /** In an ordered tree no key is on both sides, and the node's key is on neither. */
  lemma SidesDisjoint(t: Tree)
    requires t.Node? && Ordered(t)
    ensures t.key !in Keys(t.left) && t.key !in Keys(t.right)
    ensures Keys(t.left) !! Keys(t.right)
  {
    LessIrreflexive(t.key);
    forall k | k in Keys(t.left) && k in Keys(t.right) ensures false {
      LessAsymmetric(k, t.key);
    }
  }

  /** A key of an ordered tree's subtree finds the same list in the whole tree. */
  lemma SubtreeLists(t: Tree)
    requires t.Node? && Ordered(t)
    ensures forall k | k in Lists(t.left) :: k in Lists(t) && Lists(t)[k] == Lists(t.left)[k]
    ensures forall k | k in Lists(t.right) :: k in Lists(t) && Lists(t)[k] == Lists(t.right)[k]
  {
    ListsKeys(t.left);
    ListsKeys(t.right);
    SidesDisjoint(t);
  }

  /** The in-order walk visits exactly the keys of the tree, one per node. */
  lemma {:induction false} InorderMembers(t: Tree)
    ensures forall k :: k in Inorder(t) <==> k in Keys(t)
    ensures |Inorder(t)| == NodeCount(t)
  {
    if t.Node? {
      InorderMembers(t.left);
      InorderMembers(t.right);
    }
  }

  /** An ordered tree lists its keys in increasing order. */
  lemma {:induction false} InorderIncreasing(t: Tree)
    requires Ordered(t)
    ensures Increasing(Inorder(t))
  {
    if t.Node? {
      InorderIncreasing(t.left);
      InorderIncreasing(t.right);
      InorderMembers(t.left);
      InorderMembers(t.right);
      var a, b := Inorder(t.left), Inorder(t.right);
      var s := Inorder(t);
      assert s == a + [t.key] + b;
      forall i, j | 0 <= i < j < |s| ensures Less(s[i], s[j]) {
        if j < |a| {
          assert s[i] == a[i] && s[j] == a[j];
        } else if i < |a| && j == |a| {
          assert s[i] in a;
        } else if i < |a| {
          assert s[i] in a && s[j] == b[j - |a| - 1] && s[j] in b;
          LessTransitive(s[i], t.key, s[j]);
        } else if i == |a| {
          assert s[j] == b[j - |a| - 1] && s[j] in b;
        } else {
          assert s[i] == b[i - |a| - 1] && s[j] == b[j - |a| - 1];
        }
      }
    }
  }

  /** An ordered tree has as many distinct keys as nodes. */
  lemma {:induction false} KeysCount(t: Tree)
    requires Ordered(t)
    ensures |Keys(t)| == NodeCount(t)
  {
    if t.Node? {
      KeysCount(t.left);
      KeysCount(t.right);
      SidesDisjoint(t);
      DisjointUnionSize(Keys(t.left), t.key, Keys(t.right));
    }
  }

  /** A union of disjoint sets with one more element between them. */
  lemma DisjointUnionSize<T>(a: set<T>, x: T, b: set<T>)
    requires a !! b && x !in a && x !in b
    ensures |a + {x} + b| == |a| + 1 + |b|
  {
    assert a + {x} + b == (a + b) + {x};
    assert |a + b| == |a| + |b|;
  }

  /** The in-order walk of an ordered tree: increasing, every key once, as many as there are nodes. */
  lemma InorderSorted(t: Tree)
    requires Ordered(t)
    ensures Increasing(Inorder(t))
    ensures forall k :: k in Inorder(t) <==> k in Keys(t)
    ensures |Inorder(t)| == NodeCount(t) == |Keys(t)|
  {
    InorderMembers(t);
    InorderIncreasing(t);
    KeysCount(t);
  }

  /** `insert` adds the key to the tree's keys. */
  lemma {:induction false} InsertKeys(t: Tree, k: string, l: DerivedWordList)
    ensures Keys(TreeInsert(t, k, l)) == Keys(t) + {k}
  {
    if t.Node? && k != t.key {
      if Less(k, t.key) {
        InsertKeys(t.left, k, l);
      } else {
        InsertKeys(t.right, k, l);
      }
    }
  }

  /** `insert` keeps an ordered tree ordered. */
  lemma {:induction false} InsertOrdered(t: Tree, k: string, l: DerivedWordList)
    requires Ordered(t)
    ensures Ordered(TreeInsert(t, k, l))
  {
    if t.Node? && k != t.key {
      if Less(k, t.key) {
        InsertOrdered(t.left, k, l);
        InsertKeys(t.left, k, l);
      } else {
        LessTotal(k, t.key);
        InsertOrdered(t.right, k, l);
        InsertKeys(t.right, k, l);
      }
    }
  }

  /**
   * `insert` on an ordered tree adds the key with its new list and one node, unless the key is
   * already there, in which case nothing changes.
   */
  lemma {:induction false} InsertLists(t: Tree, k: string, l: DerivedWordList)
    requires Ordered(t)
    ensures Lists(TreeInsert(t, k, l)) == if k in Keys(t) then Lists(t) else Lists(t)[k := l]
    ensures NodeCount(TreeInsert(t, k, l)) == if k in Keys(t) then NodeCount(t) else NodeCount(t) + 1
  {
    if t.Node? && k != t.key {
      SidesDisjoint(t);
      ListsKeys(t.left);
      ListsKeys(t.right);
      if Less(k, t.key) {
        InsertLists(t.left, k, l);
        LessAsymmetric(k, t.key);
        assert k !in Keys(t.right);
        if k !in Keys(t.left) {
          UpdateLeft(Lists(t.left), Lists(t.right), t.key, t.derived, k, l);
        }
      } else {
        LessTotal(k, t.key);
        InsertLists(t.right, k, l);
        LessAsymmetric(t.key, k);
        assert k !in Keys(t.left);
        if k !in Keys(t.right) {
          UpdateRight(Lists(t.left), Lists(t.right), t.key, t.derived, k, l);
        }
      }
    }
  }

  /** The store after `insert` and then `add` on the root's list, in one step. */
  lemma InsertThenAdd(before: map<string, seq<string>>, inserted: map<string, seq<string>>, c: string, word: string)
    requires inserted == if c in before then before else before[c := []]
    ensures c in inserted && inserted[c] == WordsOf(before, c)
    ensures inserted[c := AddWord(inserted[c], word)] == before[c := AddWord(WordsOf(before, c), word)]
  {
  }

  /** A new entry in the left operand of a union commutes with the node's own entry. */
  lemma UpdateLeft<K, V>(a: map<K, V>, b: map<K, V>, key: K, d: V, k: K, v: V)
    requires k !in b && k != key
    ensures (a[k := v] + b)[key := d] == (a + b)[key := d][k := v]
  {
  }

  /** A new entry in the right operand of a union commutes with the node's own entry. */
  lemma UpdateRight<K, V>(a: map<K, V>, b: map<K, V>, key: K, d: V, k: K, v: V)
    requires k != key
    ensures (a + b[k := v])[key := d] == (a + b)[key := d][k := v]
  {
  }

  /** The height is 0 only for the empty tree, at most the node count, and bounds the node count. */
  lemma {:induction false} HeightBounds(t: Tree)
    ensures TreeHeight(t) == 0 <==> t.Leaf?
    ensures TreeHeight(t) <= NodeCount(t) < Pow2(TreeHeight(t))
  {
    if t.Node? {
      HeightBounds(t.left);
      HeightBounds(t.right);
      PowMonotone(TreeHeight(t.left), TreeHeight(t) - 1);
      PowMonotone(TreeHeight(t.right), TreeHeight(t) - 1);
    }
  }

  lemma {:induction false} PowMonotone(a: nat, b: nat)
    requires a <= b
    ensures Pow2(a) <= Pow2(b)
  {
    if a < b {
      PowMonotone(a, b - 1);
    }
  }

  // ----- Deletion -----

  /** `_min_node`: follow left links to the node with no left child, the smallest key. */
  method MinNode(t: Tree) returns (m: Tree)
    requires t.Node? && Ordered(t)
    ensures m.Node? && m.key in Lists(t) && Lists(t)[m.key] == m.derived
    ensures forall k | k in Keys(t) && k != m.key :: Less(m.key, k)
  {
    m := t;
    ListsKeys(t);
    while m.left.Node?
      invariant m.Node? && Ordered(m)
      invariant forall k | k in Lists(m) :: k in Lists(t) && Lists(t)[k] == Lists(m)[k]
      invariant Keys(m) <= Keys(t)
      invariant forall k, j | k in Keys(t) && k !in Keys(m) && j in Keys(m) :: Less(j, k)
      decreases m
    {
      SubtreeLists(m);
      ListsKeys(m.left);
      ListsKeys(m);
      forall k, j | k in Keys(t) && k !in Keys(m.left) && j in Keys(m.left) ensures Less(j, k) {
        if k == m.key {
        } else if k in Keys(m.right) {
          LessTransitive(j, m.key, k);
        }
      }
      m := m.left;
    }
    SubtreeLists(m);
    ListsKeys(m);
    assert m.key in Keys(m);
  }

  /**
   * `_delete_recursive`: remove key `k` from an ordered tree. A node with two children takes
   * its in-order successor's key and list, and the successor is removed from the right subtree.
   */
  method DeleteRec(t: Tree, k: string) returns (t': Tree, deleted: bool)
    requires Ordered(t)
    ensures Ordered(t')
    ensures deleted <==> k in Keys(t)
    ensures Lists(t') == Lists(t) - {k}
    ensures NodeCount(t') == if deleted then NodeCount(t) - 1 else NodeCount(t)
    decreases t
  {
    if t.Leaf? {
      return Leaf, false;
    }
    SidesDisjoint(t);
    ListsKeys(t.left);
    ListsKeys(t.right);
    if Less(k, t.key) {
      var l, d := DeleteRec(t.left, k);
      ListsKeys(l);
      LessAsymmetric(k, t.key);
      t' := Node(l, t.key, t.derived, t.right);
      DeleteLeft(Lists(t.left), Lists(t.right), t.key, t.derived, k);
      return t', d;
    } else if Less(t.key, k) {
      var r, d := DeleteRec(t.right, k);
      ListsKeys(r);
      LessAsymmetric(t.key, k);
      t' := Node(t.left, t.key, t.derived, r);
      DeleteRight(Lists(t.left), Lists(t.right), t.key, t.derived, k);
      return t', d;
    }
    LessTotal(k, t.key);
    if t.left.Leaf? {
      DeleteNode(Lists(t.left), Lists(t.right), t.key, t.derived);
      return t.right, true;
    }
    if t.right.Leaf? {
      DeleteNode(Lists(t.left), Lists(t.right), t.key, t.derived);
      return t.left, true;
    }
    var successor := MinNode(t.right);
    var r, _ := DeleteRec(t.right, successor.key);
    ListsKeys(r);
    ListsKeys(t.right);
    forall j | j in Keys(t.left) ensures Less(j, successor.key) {
      LessTransitive(j, t.key, successor.key);
    }
    t' := Node(t.left, successor.key, successor.derived, r);
    DeleteSuccessor(Lists(t.left), Lists(t.right), t.key, t.derived, successor.key);
    return t', true;
  }

  lemma DeleteLeft<K, V>(a: map<K, V>, b: map<K, V>, key: K, d: V, k: K)
    requires k !in b && k != key
    ensures ((a - {k}) + b)[key := d] == (a + b)[key := d] - {k}
  {
  }

  lemma DeleteRight<K, V>(a: map<K, V>, b: map<K, V>, key: K, d: V, k: K)
    requires k !in a && k != key
    ensures (a + (b - {k}))[key := d] == (a + b)[key := d] - {k}
  {
  }

  lemma DeleteNode<K, V>(a: map<K, V>, b: map<K, V>, key: K, d: V)
    requires key !in a && key !in b && a.Keys !! b.Keys
    ensures (a == map[] ==> b == (a + b)[key := d] - {key})
    ensures (b == map[] ==> a == (a + b)[key := d] - {key})
  {
  }

  lemma DeleteSuccessor<K, V>(a: map<K, V>, b: map<K, V>, key: K, d: V, s: K)
    requires s in b && key !in a && key !in b && s !in a
    ensures (a + (b - {s}))[s := b[s]] == (a + b)[key := d] - {key}
  {
  }

  // ----- The root tree -----

  /** The words derived for compact root `c`, or none if the root is absent. */
  function WordsOf(derived: map<string, seq<string>>, c: string): seq<string>
  {
    if c in derived then derived[c] else []
  }

  /** The total length of the derived-word lists of the keys `ks`. */
  function SumWords(ks: seq<string>, derived: map<string, seq<string>>): nat
  {
    if ks == [] then 0 else |WordsOf(derived, ks[0])| + SumWords(ks[1..], derived)
  }

  /** The total over two runs of keys is the sum of their totals. */
  lemma {:induction false} SumWordsAppend(a: seq<string>, b: seq<string>, derived: map<string, seq<string>>)
    ensures SumWords(a + b, derived) == SumWords(a, derived) + SumWords(b, derived)
  {
    if a != [] {
      assert (a + b)[1..] == a[1..] + b;
      SumWordsAppend(a[1..], b, derived);
    } else {
      assert a + b == b;
    }
  }

  /** The total of a tree: its node's words, then those of its two sides. */
  lemma SumWordsNode(t: Tree, derived: map<string, seq<string>>)
    requires t.Node?
    ensures SumWords(Inorder(t), derived)
         == |WordsOf(derived, t.key)| + SumWords(Inorder(t.left), derived) + SumWords(Inorder(t.right), derived)
  {
    SumWordsAppend(Inorder(t.left) + [t.key], Inorder(t.right), derived);
    SumWordsAppend(Inorder(t.left), [t.key], derived);
  }

  /**
   * Changing the words of one key that occurs once among `ks` changes the total by the change
   * in that key's count, and changing a key outside `ks` changes nothing.
   */
  lemma {:induction false} SumWordsUpdate(ks: seq<string>, derived: map<string, seq<string>>, c: string, ws: seq<string>)
    requires NoDup(ks)
    ensures SumWords(ks, derived[c := ws]) + (if c in ks then |WordsOf(derived, c)| else 0)
         == SumWords(ks, derived) + (if c in ks then |ws| else 0)
  {
    if ks != [] {
      assert NoDup(ks[1..]) && ks[0] !in ks[1..] by {
        assert forall i | 0 <= i < |ks| - 1 :: ks[1..][i] == ks[i + 1];
      }
      SumWordsUpdate(ks[1..], derived, c, ws);
      assert c in ks <==> c == ks[0] || c in ks[1..];
    }
  }

  /** The compact roots the valid lines of a file name. */
  function RootsIn(lines: seq<string>): set<string>
  {
    set l | l in lines && ValidDashedRoot(Strip(l)) :: ToCompactRoot(Strip(l))
  }

  /** The store after one line of a roots file: its root added with no words, if it is a new valid root. */
  function WithRoot(derived: map<string, seq<string>>, line: string): map<string, seq<string>>
  {
    var raw := Strip(line);
    if raw == [] || !ValidDashedRoot(raw) then derived
    else
      var c := ToCompactRoot(raw);
      if c in derived then derived else derived[c := []]
  }

  /** The store after the lines of a roots file, in order. */
  function RootsLoaded(derived: map<string, seq<string>>, lines: seq<string>): map<string, seq<string>>
  {
    if lines == [] then derived
    else WithRoot(RootsLoaded(derived, lines[..|lines| - 1]), lines[|lines| - 1])
  }

  /** One more line of the file is one more step of loading. */
  lemma RootsLoadedStep(derived: map<string, seq<string>>, lines: seq<string>, i: nat)
    requires i < |lines|
    ensures RootsLoaded(derived, lines[..i + 1]) == WithRoot(RootsLoaded(derived, lines[..i]), lines[i])
  {
    assert lines[..i + 1][..i] == lines[..i];
  }

  /**
   * Loading a roots file adds exactly the roots its valid lines name, each with no words, and
   * leaves the words of the roots already there alone.
   */
  lemma {:induction false} RootsLoadedSpec(derived: map<string, seq<string>>, lines: seq<string>)
    ensures RootsLoaded(derived, lines).Keys == derived.Keys + RootsIn(lines)
    ensures forall k | k in RootsLoaded(derived, lines) :: RootsLoaded(derived, lines)[k] == WordsOf(derived, k)
  {
    if lines != [] {
      var init, last := lines[..|lines| - 1], lines[|lines| - 1];
      var before := RootsLoaded(derived, init);
      RootsLoadedSpec(derived, init);
      assert lines == init + [last];
      RootsInSnoc(init, last);
      WithRootSpec(before, last);
      forall k | k in RootsLoaded(derived, lines) ensures RootsLoaded(derived, lines)[k] == WordsOf(derived, k) {
        assert RootsLoaded(derived, lines)[k] == WordsOf(before, k);
      }
    }
  }

  /** One line adds its root, if it is valid, and changes no root's words. */
  lemma WithRootSpec(derived: map<string, seq<string>>, line: string)
    ensures WithRoot(derived, line).Keys ==
      derived.Keys + if ValidDashedRoot(Strip(line)) then {ToCompactRoot(Strip(line))} else {}
    ensures forall k | k in WithRoot(derived, line) :: WithRoot(derived, line)[k] == WordsOf(derived, k)
  {
    var raw := Strip(line);
    if raw == [] {
      assert !ValidDashedRoot(raw) by {
        assert Drop(raw, {'-', ' '}) == [];
      }
    }
  }

  /** The roots of one more line: those before, and the line's own if it is valid. */
  lemma RootsInSnoc(init: seq<string>, last: string)
    ensures RootsIn(init + [last]) ==
      RootsIn(init) + if ValidDashedRoot(Strip(last)) then {ToCompactRoot(Strip(last))} else {}
  {
    var lines := init + [last];
    forall l | l in lines ensures l in init || l == last {
      var i :| 0 <= i < |lines| && lines[i] == l;
      if i < |init| {
        assert init[i] == l;
      }
    }
  }

  /** A list none of whose objects changed is still valid and holds the same words. */
  twostate lemma ListFramed(l: DerivedWordList)
    requires old(l.Valid()) && unchanged(old(l.Repr))
    ensures l.Valid() && l.Repr == old(l.Repr) && l.words == old(l.words)
  {
  }

  /**
   * The lists of a tree: each valid, inside `repr`, holding the words `derived` records for its
   * key, and no two sharing an object.
   */
  ghost predicate Owns(lists: map<string, DerivedWordList>, derived: map<string, seq<string>>, repr: set<object>)
    reads repr
  {
    && (forall k | k in lists ::
          && lists[k] in repr && lists[k].Repr <= repr
          && lists[k].Valid() && k in derived && lists[k].words == derived[k])
    && (forall k, k' | k in lists && k' in lists && k != k' :: lists[k].Repr !! lists[k'].Repr)
  }

  /** A fresh empty list joins the owned lists under a new key. */
  lemma OwnsAdd(lists: map<string, DerivedWordList>, derived: map<string, seq<string>>, repr: set<object>,
                c: string, l: DerivedWordList)
    requires Owns(lists, derived, repr) && c !in lists
    requires l.Valid() && l.Repr !! repr && l.words == []
    ensures Owns(lists[c := l], derived[c := []], repr + l.Repr)
  {
    var lists', derived' := lists[c := l], derived[c := []];
    forall k | k in lists'
      ensures lists'[k] in repr + l.Repr && lists'[k].Repr <= repr + l.Repr
      ensures lists'[k].Valid() && k in derived' && lists'[k].words == derived'[k]
    {
      if k != c {
        assert lists[k].Valid();
      }
    }
  }

  /** Dropping a key keeps the remaining lists owned. */
  lemma OwnsRemove(lists: map<string, DerivedWordList>, derived: map<string, seq<string>>, repr: set<object>,
                   lists': map<string, DerivedWordList>, c: string)
    requires Owns(lists, derived, repr) && lists' == lists - {c}
    ensures Owns(lists', derived - {c}, repr)
  {
  }

  /**
   * The invariant of `RootBST` over its fields: an ordered tree whose node count is `size`,
   * whose lists are `lists`, owned within `repr`, one per compact root of the store `derived`.
   */
  ghost predicate Holds(root: Tree, size: nat, lists: map<string, DerivedWordList>,
                        derived: map<string, seq<string>>, repr: set<object>)
    reads repr
  {
    && Ordered(root)
    && size == NodeCount(root)
    && lists == Lists(root)
    && lists.Keys == derived.Keys
    && (forall k | k in derived :: CompactForm(k))
    && Owns(lists, derived, repr)
  }

  /** `RootBST`: the tree, its node count, and the derived words of each compact root. */
  class RootBST {
    var root: Tree
    /** `_size`. */
    var size: nat
    /** The store the tree stands for: each compact root and its derived words, newest first. */
    ghost var derived: map<string, seq<string>>
    /** Each compact root and the list its node owns. */
    ghost var lists: map<string, DerivedWordList>
    /** The lists and their nodes. */
    ghost var Repr: set<object>

    ghost predicate Valid()
      reads this, Repr
    {
      this !in Repr && Holds(root, size, lists, derived, Repr)
    }

    /** `__init__`: no roots. */
    constructor ()
      ensures Valid() && fresh(Repr) && derived == map[]
    {
      root := Leaf;
      size := 0;
      derived := map[];
      lists := map[];
      Repr := {};
    }

    /** The descent `insert` and `search` share: the node of `compact`, if the tree has one. */
    method Find(compact: string) returns (r: Option<Tree>)
      requires Valid()
      ensures r.Some? <==> compact in derived
      ensures r.Some? ==> r.value.Node? && r.value.key == compact && r.value.derived == lists[compact]
    {
      var current := root;
      ListsKeys(root);
      while current.Node?
        invariant Ordered(current)
        invariant forall k | k in Lists(current) :: k in Lists(root) && Lists(root)[k] == Lists(current)[k]
        invariant compact in Keys(root) ==> compact in Keys(current)
        decreases current
      {
        SubtreeLists(current);
        ListsKeys(current);
        if compact == current.key {
          return Some(current);
        } else if Less(compact, current.key) {
          LessAsymmetric(compact, current.key);
          current := current.left;
        } else {
          current := current.right;
        }
      }
      return None;
    }

    /**
     * `insert`: raise the validator's reason for a bad root; otherwise return the node of the
     * compact root, creating it (with an empty list) if it is new.
     */
    method Insert(rawRoot: string) returns (r: Outcome<Tree>)
      requires Valid()
      modifies this
      ensures Valid() && fresh(Repr - old(Repr))
      ensures r.Raised? <==> !ValidDashedRoot(rawRoot)
      ensures r.Raised? ==> Some(r.message) == RootError(rawRoot) && derived == old(derived)
      ensures r.Returned? ==>
        var c := ToCompactRoot(rawRoot);
        && r.value.Node? && r.value.key == c && c in lists && r.value.derived == lists[c]
        && derived == if c in old(derived) then old(derived) else old(derived)[c := []]
    {
      var error := RootError(rawRoot);
      if error.Some? {
        return Raised(error.value);
      }
      var compact := ToCompactRoot(rawRoot);
      var found := Find(compact);
      if found.Some? {
        return Returned(found.value);
      }
      var list := new DerivedWordList();
      CompactRootForm(rawRoot);
      Attach(compact, list);
      return Returned(Node(Leaf, compact, list, Leaf));
    }

    /** The attaching step of `insert`: the new node for an absent compact root and its fresh list. */
    method Attach(compact: string, list: DerivedWordList)
      requires Valid() && compact !in derived && CompactForm(compact)
      requires list.Valid() && list.Repr !! Repr && this !in list.Repr && list.words == []
      modifies this
      ensures Valid() && Repr == old(Repr) + list.Repr
      ensures derived == old(derived)[compact := []] && lists == old(lists)[compact := list]
    {
      ListsKeys(root);
      InsertLists(root, compact, list);
      InsertOrdered(root, compact, list);
      OwnsAdd(lists, derived, Repr, compact, list);
      Replace(TreeInsert(root, compact, list), size + 1, derived[compact := []], Repr + list.Repr);
    }

    /** Installs a new tree with its count, store and footprint, which must agree. */
    method Replace(root': Tree, size': nat, ghost derived': map<string, seq<string>>, ghost repr': set<object>)
      requires Ordered(root') && size' == NodeCount(root') && this !in repr'
      requires Lists(root').Keys == derived'.Keys
      requires Owns(Lists(root'), derived', repr')
      requires forall k | k in derived' :: CompactForm(k)
      modifies this
      ensures Valid()
      ensures root == root' && derived == derived' && lists == Lists(root') && Repr == repr'
    {
      Install(root', size', Lists(root'), derived', repr');
    }

    /** Sets the five fields and changes nothing else. */
    method Install(root': Tree, size': nat, ghost lists': map<string, DerivedWordList>,
                   ghost derived': map<string, seq<string>>, ghost repr': set<object>)
      modifies this
      ensures root == root' && size == size' && lists == lists' && derived == derived' && Repr == repr'
    {
      root, size, lists, derived, Repr := root', size', lists', derived', repr';
    }

    /** `search`: `None` for an invalid root; otherwise the node of its compact form, if present. */
    method Search(rawRoot: string) returns (r: Option<Tree>)
      requires Valid()
      ensures r.Some? <==> ValidDashedRoot(rawRoot) && ToCompactRoot(rawRoot) in derived
      ensures r.Some? ==>
        var c := ToCompactRoot(rawRoot);
        r.value.Node? && r.value.key == c && r.value.derived == lists[c]
    {
      if !ValidDashedRoot(rawRoot) {
        return None;
      }
      r := Find(ToCompactRoot(rawRoot));
    }

    /** `delete`: remove the compact form of the text (no validation), reporting whether it was there. */
    method Delete(rawRoot: string) returns (deleted: bool)
      requires Valid()
      modifies this
      ensures Valid() && Repr == old(Repr)
      ensures deleted <==> ToCompactRoot(rawRoot) in old(derived)
      ensures derived == old(derived) - {ToCompactRoot(rawRoot)}
      ensures lists == old(lists) - {ToCompactRoot(rawRoot)}
    {
      var compact := ToCompactRoot(rawRoot);
      ListsKeys(root);
      var newRoot;
      newRoot, deleted := DeleteRec(root, compact);
      OwnsRemove(lists, derived, Repr, Lists(newRoot), compact);
      Replace(newRoot, if deleted then size - 1 else size, derived - {compact}, Repr);
    }

    /** `add_derived_word`: insert (or find) the root, then add the word to its list. */
    method AddDerivedWord(rawRoot: string, word: string) returns (r: Outcome<bool>)
      requires Valid()
      modifies this, Repr
      ensures Valid() && fresh(Repr - old(Repr))
      ensures r.Raised? <==> !ValidDashedRoot(rawRoot)
      ensures r.Raised? ==> Some(r.message) == RootError(rawRoot) && derived == old(derived)
      ensures r.Returned? ==>
        var c := ToCompactRoot(rawRoot);
        && (r.value <==> word !in WordsOf(old(derived), c))
        && derived == old(derived)[c := AddWord(WordsOf(old(derived), c), word)]
    {
      var node := Insert(rawRoot);
      if node.Raised? {
        return Raised(node.message);
      }
      ghost var c := ToCompactRoot(rawRoot);
      InsertThenAdd(old(derived), derived, c, word);
      var added := AddTo(c, node.value.derived, word);
      return Returned(added);
    }

    /** After the list of `c` gained a word, it and the untouched others are still owned. */
    twostate lemma ListGrew(c: string)
      requires old(Owns(lists, derived, Repr)) && unchanged(this) && c in lists
      requires lists[c].Valid() && fresh(lists[c].Repr - old(lists[c].Repr))
      requires unchanged(Repr - {lists[c]})
      ensures Owns(lists, derived[c := lists[c].words], Repr + lists[c].Repr)
    {
      var l := lists[c];
      forall k | k in lists && k != c
        ensures lists[k].Valid() && lists[k].Repr == old(lists[k].Repr) && lists[k].words == old(lists[k].words)
      {
        assert l in old(l.Repr);
        ListFramed(lists[k]);
      }
      forall k, k' | k in lists && k' in lists && k != k'
        ensures lists[k].Repr !! lists[k'].Repr
      {
        assert old(lists[k].Repr !! lists[k'].Repr);
      }
    }

    /** The second step of `add_derived_word`: add the word to the list of the root's node. */
    method AddTo(ghost c: string, list: DerivedWordList, word: string) returns (added: bool)
      requires Valid() && c in lists && lists[c] == list
      modifies this, Repr
      ensures Valid() && fresh(Repr - old(Repr))
      ensures added <==> word !in old(derived)[c]
      ensures derived == old(derived)[c := AddWord(old(derived)[c], word)]
    {
      ghost var listRepr := list.Repr;
      label Before:
      added := list.Add(word);
      ListGrew@Before(c);
      ghost var repr' := Repr + list.Repr;
      assert repr' - old(Repr) <= list.Repr - listRepr;
      Replace(root, size, derived[c := list.words], repr');
    }

    /** `insert_from_user_input`: insert, and report whether the tree grew. */
    method InsertFromUserInput(userInput: string) returns (r: Outcome<bool>)
      requires Valid()
      modifies this
      ensures Valid() && fresh(Repr - old(Repr))
      ensures r.Raised? <==> !ValidDashedRoot(userInput)
      ensures r.Raised? ==> Some(r.message) == RootError(userInput) && derived == old(derived)
      ensures r.Returned? ==>
        var c := ToCompactRoot(userInput);
        && (r.value <==> c !in old(derived))
        && derived == if c in old(derived) then old(derived) else old(derived)[c := []]
    {
      CountIsSize();
      var before := size;
      var node := Insert(userInput);
      if node.Raised? {
        return Raised(node.message);
      }
      CountIsSize();
      return Returned(size > before);
    }

    /**
     * `load_roots_from_file` over the file's lines: every stripped non-empty line that is a valid
     * root is inserted, the others are skipped, and the result counts the roots that were new.
     */
    method LoadRoots(lines: seq<string>) returns (count: nat)
      requires Valid()
      modifies this
      ensures Valid()
      ensures derived == RootsLoaded(old(derived), lines)
      ensures |old(derived)| + count == |derived|
    {
      ghost var d0 := derived;
      count := 0;
      for i := 0 to |lines|
        invariant Valid()
        invariant derived == RootsLoaded(d0, lines[..i])
        invariant |d0| + count == |derived|
      {
        RootsLoadedStep(d0, lines, i);
        var added := LoadLine(lines[i]);
        if added {
          count := count + 1;
        }
      }
      assert lines[..|lines|] == lines;
    }

    /** The body of the loop of `load_roots_from_file`: one line, stripped, skipped if empty or invalid. */
    method LoadLine(line: string) returns (added: bool)
      requires Valid()
      modifies this
      ensures Valid() && fresh(Repr - old(Repr))
      ensures derived == WithRoot(old(derived), line)
      ensures added <==> |derived| == |old(derived)| + 1
      ensures !added ==> |derived| == |old(derived)|
    {
      var raw := Strip(line);
      if raw == [] {
        return false;
      }
      var inserted := InsertFromUserInput(raw);
      added := inserted.Returned? && inserted.value;
    }

    /** `count_total_derivatives`: the sizes of all the lists added up. */
    method CountTotalDerivatives() returns (total: nat)
      requires Valid()
      ensures total == SumWords(Inorder(root), derived)
    {
      total := CountFrom(root, 0);
    }

    /** The nested `_count`: the running total plus the sizes of the lists of `t`, node first. */
    method CountFrom(t: Tree, total: nat) returns (total': nat)
      requires Valid() && Ordered(t)
      requires forall k | k in Lists(t) :: k in lists && lists[k] == Lists(t)[k]
      ensures total' == total + SumWords(Inorder(t), derived)
      decreases t
    {
      if t.Leaf? {
        return total;
      }
      SubtreeLists(t);
      assert t.key in Lists(t);
      var l := t.derived;
      assert l.size == |WordsOf(derived, t.key)| by {
        assert l == lists[t.key];
      }
      total' := total + l.size;
      total' := CountFrom(t.left, total');
      total' := CountFrom(t.right, total');
      SumWordsNode(t, derived);
    }

    /** `size`: the number of roots. */
    method Size() returns (n: nat)
      requires Valid()
      ensures n == |derived|
    {
      CountIsSize();
      return size;
    }

    /** `height`: the longest path from the top, with at least `log2(size + 1)` and at most `size` nodes on it. */
    method Height() returns (h: nat)
      requires Valid()
      ensures h == TreeHeight(root)
      ensures h <= |derived| < Pow2(h)
      ensures h == 0 <==> derived == map[]
    {
      CountIsSize();
      h := HeightOf(root);
      if h == 0 {
        assert derived.Keys == {};
      }
    }

    /** `list_roots`: the roots in order, in dashed form (`X-Y-Z`) when asked to. */
    method ListRoots(dashed: bool) returns (roots: seq<string>)
      requires Valid()
      ensures roots == if dashed then DashedAll(Inorder(root)) else Inorder(root)
    {
      var compact := InorderOf(root);
      if dashed {
        roots := seq(|compact|, i requires 0 <= i < |compact| => FormatDashed(compact[i]));
      } else {
        roots := compact;
      }
    }

    /**
     * What `inorder` yields: every root once, in ascending order, each a compact root, so that
     * the dashed listing reads back to the same roots.
     */
    lemma InorderSpec()
      requires Valid()
      ensures |Inorder(root)| == |derived|
      ensures Increasing(Inorder(root)) && forall k :: k in Inorder(root) <==> k in derived
      ensures |DashedAll(Inorder(root))| == |derived|
      ensures forall i | 0 <= i < |derived| :: ToCompactRoot(DashedAll(Inorder(root))[i]) == Inorder(root)[i]
    {
      CountIsSize();
      InorderSorted(root);
      ListsKeys(root);
      DashedAllRoundTrip(Inorder(root));
    }

    /** The store has one entry per node. */
    lemma CountIsSize()
      requires Valid()
      ensures size == |derived| == |Keys(root)|
    {
      KeysCount(root);
      ListsKeys(root);
      assert derived.Keys == Keys(root);
    }
  }

  /** The dashed form of each compact root, in order. */
  function DashedAll(ks: seq<string>): seq<string>
  {
    seq(|ks|, i requires 0 <= i < |ks| => FormatDashed(ks[i]))
  }

  /** `to_compact_root` reads each dashed form back to its compact root. */
  lemma DashedAllRoundTrip(ks: seq<string>)
    requires forall i | 0 <= i < |ks| :: CompactForm(ks[i])
    ensures |DashedAll(ks)| == |ks|
    ensures forall i | 0 <= i < |ks| :: ToCompactRoot(DashedAll(ks)[i]) == ks[i]
  {
    forall i | 0 <= i < |ks| ensures ToCompactRoot(DashedAll(ks)[i]) == ks[i] {
      CompactRoundTrip(ks[i]);
    }
  }

  /**
   * The nested `_height` of `height`: zero only for the empty tree, and a path of `h` nodes
   * needs at least `h` and holds at most `2^h - 1` nodes.
   */
  method HeightOf(t: Tree) returns (h: nat)
    ensures h == TreeHeight(t)
    ensures h == 0 <==> t.Leaf?
    ensures h <= NodeCount(t) < Pow2(h)
    decreases t
  {
    if t.Leaf? {
      return 0;
    }
    var l := HeightOf(t.left);
    var r := HeightOf(t.right);
    h := 1 + if l < r then r else l;
    PowMonotone(l, h - 1);
    PowMonotone(r, h - 1);
  }

  /**
   * The nested `_inorder` generator of `inorder`, collected into a list: every key of the tree
   * once per node, in increasing order when the tree is ordered.
   */
  method InorderOf(t: Tree) returns (ks: seq<string>)
    ensures ks == Inorder(t)
    ensures |ks| == NodeCount(t)
    ensures forall k :: k in ks <==> k in Keys(t)
    ensures Ordered(t) ==> Increasing(ks)
    decreases t
  {
    if t.Leaf? {
      return [];
    }
    var l := InorderOf(t.left);
    var r := InorderOf(t.right);
    ks := l + [t.key] + r;
    if Ordered(t) {
      InorderIncreasing(t);
    }
  }

}
