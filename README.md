# Arabic morphology engine in Dafny

This project models the core of an Arabic morphology engine and proves properties of the model.
The engine stores triliteral roots (such as ك-ت-ب) and morphological patterns (such as فاعل).
It derives a word by writing a root's three letters into the ف / ع / ل slots of a pattern's rule.
It can also decide whether a given word belongs to a root.

The model has eight modules, one per source file plus two shared ones:

- `Wrappers` (`wrappers.dfy`): `Option`, and `Outcome`, which either returns a value or raises a `ValueError` with its message.
- `Text` (`text.dfy`): the Python `str` operations the engine uses (`replace`, `count`, `split`, `join`, `strip`, code-point comparison), stated over `seq<char>`.
- `Normalization` (`normalization.dfy`): `Data_Structures/normalization.py`. Covers whitespace and tatweel removal, Alef unification, diacritic stripping (with or without shadda), the dashed-root check and root-letter extraction.
- `HashTable` (`hash_table.dfy`): `Data_Structures/hash_table.py`. This is a 37-bucket table of singly linked `PatternRuleChain`s, written as classes over real node objects, plus the rolling hash, pattern validation and the substitution `derive_from_normalized_pattern`.
  - The abstract state is a ghost map `rules` from normalised pattern to normalised rule, plus the per-bucket entry sequences `contents`.
  - The invariant says every entry sits in bucket `hash(pattern)`, no pattern appears twice, every key and rule is a pattern form `_normalize_and_validate` returns unchanged, and `_size` equals the number of entries.
- `LinkedList` (`linked_list.dfy`): `Data_Structures/linked_list.py`. A deduplicating derived-word list over real node objects.
- `RootTree` (`root_tree.dfy`): `Data_Structures/root_tree.py`. Covers that file's copy of normalisation and root validation (with the reason messages), its set-backed `DerivedWordList`, and the `RootBST`.
  - The tree is ordered by Python's code-point string order.
  - Its abstract state is the ghost map `derived` from compact root to derived words, newest first.
- `Generator` (`generator.dfy`): `Engine/generator.py`. `generate_one` and `generate_family`, specified by the functions `Generated`, `Stored`, `Results` and `StoreAll` over the two stores' abstract states.
- `Validator` (`validator.dfy`): `Engine/validator.py`. `validate`, specified by `Validation` (the verdict) and `Probed` (the tree afterwards). Every probe goes through the generator with `store=True`.

Python arguments that may not be `str` are modelled by `Arg = Str(s) | Other`. File reading becomes a sequence of lines.

## Model

| member | source | states |
|---|---|---|
| Normalization.UnifyAlef | Data_Structures/normalization.py:18-30 | each Alef variant replaced by bare Alef, position by position |
| Normalization.NormalizeBase | Data_Structures/normalization.py:25-31 | `_normalize_base`: blanks and tatweel removed, then Alef unified |
| Normalization.NormalizeCommon | Data_Structures/normalization.py:34-38 | `normalize_common`: the base step, then every diacritic removed |
| Normalization.NormalizeRoot | Data_Structures/normalization.py:41-44 | `normalize_root`: `normalize_common`, then dashes removed |
| Normalization.NormalizePattern | Data_Structures/normalization.py:47-55 | `normalize_pattern`: the base step, then every diacritic but shadda removed |
| Normalization.IsArabicLetter | Data_Structures/normalization.py:65-66 | a code point in U+0621..U+064A |
| Normalization.ValidateDashedRoot | Data_Structures/normalization.py:69-88 | `validate_dashed_root`: false for a non-string, else the dash checks on `normalize_common` |
| Normalization.DashChecks | Data_Structures/normalization.py:73-88 | two dashes, three non-empty parts, three letters once joined, all Arabic letters |
| Normalization.UnifyAlefMembers | Data_Structures/normalization.py:18-30 | after Alef unification no Alef variant is left, and text without variants is unchanged |
| Normalization.NormalizeBaseStepwise | Data_Structures/normalization.py:25-31 | `_normalize_base` removes space, tab, newline and tatweel in turn, then unifies Alef; the empty text gives the empty text |
| Normalization.NormalFormMembers | Data_Structures/normalization.py:25-55 | output alphabets: no blank or Alef variant after the base step; no diacritic after `normalize_common`; also no dash after `normalize_root`; no diacritic except shadda after `normalize_pattern` |
| Normalization.NormalizeBaseFixes | Data_Structures/normalization.py:25-31 | text with no blank and no Alef variant is a fixed point of `_normalize_base` |
| Normalization.NormalFormsFix | Data_Structures/normalization.py:34-55 | text with no blank, Alef variant or diacritic is a fixed point of both `normalize_common` and `normalize_pattern` |
| Normalization.PatternFormFixes | Data_Structures/normalization.py:47-55 | text whose only diacritic is shadda is a fixed point of `normalize_pattern` |
| Normalization.NormalizeCommonIdempotent | Data_Structures/normalization.py:34-38 | `normalize_common` applied twice equals applied once |
| Normalization.NormalizePatternIdempotent | Data_Structures/normalization.py:47-55 | `normalize_pattern` applied twice equals applied once |
| Normalization.PatternModeKeepsOnlyShadda | Data_Structures/normalization.py:34-55 | the pattern form differs from the common form only by shadda: dropping shadda from it, or normalising it in common mode, gives `normalize_common(x)` |
| Normalization.UnifyAlefAppend | Data_Structures/normalization.py:30 | Alef unification distributes over concatenation |
| Normalization.NormalizeCommonAppend | Data_Structures/normalization.py:34-38 | `normalize_common` distributes over concatenation |
| Normalization.NormalizeCommonIgnores | Data_Structures/normalization.py:34-38 | inserting a diacritic or blank anywhere does not change the normalised text |
| Normalization.DiacriticsAreNotLetters | Data_Structures/normalization.py:65-66 | no diacritic is an Arabic letter; Alef wasla (U+0671) is outside the range; tatweel (U+0640) is inside it |
| Normalization.ExtractRootLetters | Data_Structures/normalization.py:58-62 | returns a triple exactly when `normalize_root` has length 3, and the triple is those three characters in order |
| Normalization.DashChecksShape | Data_Structures/normalization.py:73-88 | the checks of `validate_dashed_root` (two dashes, three non-empty parts, three joined letters, all Arabic) hold exactly when the normalised text is `X-Y-Z` with three Arabic letters |
| Normalization.ValidateDashedRootShape | Data_Structures/normalization.py:69-88 | `validate_dashed_root` is false for a non-string and otherwise holds iff `normalize_common` of the text has the shape `X-Y-Z` |
| Normalization.DropDashes | Data_Structures/normalization.py:41-44 | removing dashes from `X-Y-Z` leaves `XYZ` |
| Normalization.ValidRootHasLetters | Data_Structures/normalization.py:58-88 | a root accepted by `validate_dashed_root` normalises to five characters, and `extract_root_letters` returns its first, third and fifth |
| HashTable.HashOf | Data_Structures/hash_table.py:115-125 | the left fold of `(v*131 + ord(ch)) % 37` is a bucket index below 37 |
| HashTable.HashIsWeightedSum | Data_Structures/hash_table.py:115-125 | the fold equals the weighted sum, with the first character weighted highest, reduced mod 37 |
| HashTable.PatternHashTable.Hash | Data_Structures/hash_table.py:115-125 | the hashing loop computes `HashOf(key)` |
| HashTable.PatternHashTable.NormalizeAndValidate | Data_Structures/hash_table.py:93-112 | the validation loop returns `ValidPattern(p)`: the pattern form for a `str` whose pattern form is non-empty, at least 4 long, all Arabic letters or shadda, and contains ف, ع and ل; `None` otherwise |
| HashTable.ValidPatternStable | Data_Structures/hash_table.py:93-112 | an accepted pattern, validated again, is accepted unchanged |
| HashTable.BareSkeletonRejected | Data_Structures/hash_table.py:100-102 | the three-letter skeleton فعل is refused |
| HashTable.Fill | Data_Structures/hash_table.py:232-242 | the substituted word has the rule's length, and each position holds the corresponding root letter for ف / ع / ل or the rule's own character otherwise |
| HashTable.Derivation | Data_Structures/hash_table.py:220-242 | a word exists exactly when the root passes `validate_dashed_root`; it is the rule filled with the first, third and fifth characters of the normalised root |
| HashTable.DeriveFromNormalizedPattern | Data_Structures/hash_table.py:220-231 | the method returns `Derivation(rawRoot, pattern)` |
| HashTable.Substitute | Data_Structures/hash_table.py:232-242 | the substitution loop builds `Fill(pattern, f, a, l)` |
| HashTable.KtbIsValid | Data_Structures/normalization.py:69-88 | the root ك-ت-ب is a valid dashed root |
| HashTable.DerivationExamples | Data_Structures/hash_table.py:220-242 | ك-ت-ب with فاعل gives كاتب; with فعّال it gives كتّاب, shadda copied |
| HashTable.WithoutPatternAt | Data_Structures/hash_table.py:61-73 | in a duplicate-free chain, removing a present pattern deletes exactly its entry and keeps the others in order |
| HashTable.PatternRuleChain.constructor | Data_Structures/hash_table.py:24-25 | a new chain is empty |
| HashTable.PatternRuleChain.Insert | Data_Structures/hash_table.py:28-37 | returns true iff the pattern was absent; then the entry is prepended, otherwise the chain is unchanged |
| HashTable.PatternRuleChain.Prepend | Data_Structures/hash_table.py:34-36 | a fresh node in front: the entries gain one at the head |
| HashTable.PatternRuleChain.FindNode | Data_Structures/hash_table.py:40-46 | returns no node iff the pattern is absent, otherwise the node at that pattern's position |
| HashTable.PatternRuleChain.Find | Data_Structures/hash_table.py:49-50 | true iff the pattern is in the chain |
| HashTable.PatternRuleChain.Update | Data_Structures/hash_table.py:53-58 | true iff the pattern is present; then only that entry's rule changes, and no node is added or dropped |
| HashTable.PatternRuleChain.Remove | Data_Structures/hash_table.py:61-73 | true iff the pattern is present; then exactly that entry is unlinked |
| HashTable.PatternRuleChain.Unlink | Data_Structures/hash_table.py:66-69 | relinking around the i-th node removes the i-th node and entry and keeps the rest in order |
| HashTable.DefaultRule | Data_Structures/hash_table.py:134 | with no rule, the stored rule is the normalised pattern itself |
| HashTable.InsertedShape | Data_Structures/hash_table.py:129-143 | a successful insert had a valid, absent pattern and a valid rule (`rule or normalized`), and adds exactly that pair |
| HashTable.InsertKeepsWellFormed | Data_Structures/hash_table.py:129-143 | insert keeps every key and rule a validated pattern form |
| HashTable.UpdateKeepsWellFormed | Data_Structures/hash_table.py:152-163 | update keeps every key and rule a validated pattern form |
| HashTable.RemoveKeepsWellFormed | Data_Structures/hash_table.py:165-174 | remove keeps every key and rule a validated pattern form |
| HashTable.InsertExtends | Data_Structures/hash_table.py:129-143 | insert never loses or changes an existing pattern |
| HashTable.InsertThenLookup | Data_Structures/hash_table.py:129-183 | after a successful insert: size up by one, `get_rule` gives the normalised rule, a second insert raises "Pattern already exists.", other patterns unchanged |
| HashTable.InsertThenRemove | Data_Structures/hash_table.py:129-174 | removing what was just inserted restores the table |
| HashTable.UpdateKeepsKeys | Data_Structures/hash_table.py:152-163 | a successful update keeps the patterns, sets the new normalised rule, and leaves the other rules alone |
| HashTable.RemoveDropsOne | Data_Structures/hash_table.py:165-174 | a successful remove: the pattern is gone, size down by one, others unchanged, and a second remove raises "Pattern not found." |
| HashTable.LoadedKeepsExisting | Data_Structures/hash_table.py:197-209 | loading lines never loses or changes a stored pattern |
| HashTable.LoadedHasEveryValidLine | Data_Structures/hash_table.py:197-209 | every line whose stripped text is a valid pattern is stored afterwards |
| HashTable.LoadLineAdds | Data_Structures/hash_table.py:200-208 | one valid line leaves its pattern stored, whether new or duplicate |
| HashTable.LoadedKeepsWellFormed | Data_Structures/hash_table.py:197-209 | loading keeps every key and rule a validated pattern form |
| HashTable.AddNormalized | Data_Structures/hash_table.py:134-142 | storing a validated pattern with a validated rule keeps every key and rule a validated pattern form |
| HashTable.InsertedValid | Data_Structures/hash_table.py:138-143 | once pattern and rule are validated, `insert` raises "Pattern already exists." for a stored pattern and otherwise adds the pair, its entry heading bucket `hash(pattern)` |
| HashTable.InsertedBuckets | Data_Structures/hash_table.py:129-143 | the chains after `insert`: unchanged when it raises, else the new entry heads its pattern's bucket |
| HashTable.UpdatedBuckets | Data_Structures/hash_table.py:152-163 | the chains after `update`: unchanged when it raises, else the pattern's entry takes the new rule in place |
| HashTable.RemovedBuckets | Data_Structures/hash_table.py:165-174 | the chains after `remove`: unchanged when it raises, else the pattern's entry is unlinked |
| HashTable.LoadedBuckets | Data_Structures/hash_table.py:197-209 | the chains after loading: each non-blank stripped line inserted in turn |
| HashTable.ValidPattern | Data_Structures/hash_table.py:93-112 | `_normalize_and_validate`: `None` for a non-string or a rejected pattern form, else the pattern form |
| HashTable.IsPatternText | Data_Structures/hash_table.py:100-111 | at least 4 characters, each an Arabic letter or shadda, with ف, ع and ل present |
| HashTable.RuleText | Data_Structures/hash_table.py:134 | `rule or normalized`: a missing or empty rule becomes the normalised pattern |
| HashTable.Inserted | Data_Structures/hash_table.py:129-143 | the store after `insert`, or the error it raises, in the source's order of checks |
| HashTable.Updated | Data_Structures/hash_table.py:152-163 | the store after `update`, or the error it raises; both texts are validated before either error |
| HashTable.Removed | Data_Structures/hash_table.py:165-174 | the store after `remove`, or the error it raises |
| HashTable.Loaded | Data_Structures/hash_table.py:197-209 | the store after loading the lines in order |
| HashTable.LoadLine | Data_Structures/hash_table.py:200-208 | one line: skipped when blank after stripping, else inserted with its error swallowed |
| HashTable.WithRule | Data_Structures/hash_table.py:53-58 | chain `update`: the entry for the pattern gets the new rule, every other entry and the order kept |
| HashTable.WithoutPattern | Data_Structures/hash_table.py:61-73 | chain `remove`: the chain without the pattern's entry, the others in order (the chain holds each pattern once, so this is the first match the loop unlinks) |
| HashTable.Flatten | Data_Structures/hash_table.py:186-191 | the entries bucket 0 first, each bucket in chain order, as `iter_patterns` walks them |
| HashTable.PatternsOf | Data_Structures/hash_table.py:186-191 | the patterns of those entries, in the same order, as `iter_patterns` yields them |
| HashTable.Has | Data_Structures/hash_table.py:145-150 | `contains`: the pattern is valid and its normal form is a key |
| HashTable.RuleOf | Data_Structures/hash_table.py:177-183 | `get_rule`: the rule stored under the normal form, `None` for an invalid or absent pattern |
| HashTable.DerivedWord | Data_Structures/hash_table.py:212-216 | `derive`: `None` without a stored rule, else the derivation with that rule |
| HashTable.BucketHasKey | Data_Structures/hash_table.py:147-150 | in a consistent bucket `hash(n)`, `n` is in the chain iff it is in the table |
| HashTable.FlattenIsKeys | Data_Structures/hash_table.py:186-191 | walking the buckets in order yields each stored pattern exactly once and nothing else; the count equals the size |
| HashTable.EmptyConsistent | Data_Structures/hash_table.py:85-90 | 37 empty chains represent the empty table |
| HashTable.InsertKeeps | Data_Structures/hash_table.py:138-142 | prepending an absent pattern to its own bucket keeps every entry in bucket `hash(pattern)`, with no duplicates |
| HashTable.UpdateKeeps | Data_Structures/hash_table.py:159-160 | changing a rule in its bucket keeps the table consistent |
| HashTable.RemoveKeeps | Data_Structures/hash_table.py:169-173 | unlinking a pattern from its bucket keeps the table consistent |
| HashTable.PatternHashTable.constructor | Data_Structures/hash_table.py:85-90 | a new table holds no pattern |
| HashTable.PatternHashTable.Insert | Data_Structures/hash_table.py:129-143 | raises "Invalid pattern format." / "Invalid rule format." / "Pattern already exists." in that order, leaving the store and every chain unchanged; otherwise adds the normalised pair, whose node heads the chain of bucket `hash(pattern)` (`InsertedBuckets`) |
| HashTable.PatternHashTable.InsertValidPattern | Data_Structures/hash_table.py:134-143 | `insert` past the pattern check: the same outcome, store and chains as `insert` for a pattern already accepted |
| HashTable.PatternHashTable.InsertNormalized | Data_Structures/hash_table.py:138-142 | the bucket insert adds the pair iff the pattern was absent; then bucket `idx` gains the new entry at its head and no other bucket changes; otherwise nothing changes |
| HashTable.PatternHashTable.Contains | Data_Structures/hash_table.py:145-150 | true iff the argument is a valid pattern whose normal form is stored; never raises |
| HashTable.PatternHashTable.Update | Data_Structures/hash_table.py:152-163 | raises on an invalid pattern, an invalid rule or an absent pattern, with store and chains unchanged; otherwise replaces only that rule, in place in its node (`UpdatedBuckets`) |
| HashTable.PatternHashTable.UpdateNormalized | Data_Structures/hash_table.py:159-162 | the bucket update changes the rule iff the pattern is present; bucket `idx` keeps its order with that entry's rule replaced, and no other bucket changes |
| HashTable.PatternHashTable.Remove | Data_Structures/hash_table.py:165-174 | raises on an invalid or absent pattern, with store and chains unchanged; otherwise removes only that pattern, unlinked from its chain with the rest in order (`RemovedBuckets`) |
| HashTable.PatternHashTable.RemoveNormalized | Data_Structures/hash_table.py:169-173 | the bucket remove drops the pattern iff present; bucket `idx` loses exactly that entry, the others keep their order, and no other bucket changes |
| HashTable.PatternHashTable.GetRule | Data_Structures/hash_table.py:177-183 | the stored rule of a valid stored pattern, else `None` |
| HashTable.PatternHashTable.FindRule | Data_Structures/hash_table.py:181-183 | the chain lookup finds a rule iff the normalised pattern is stored, and it is the stored one |
| HashTable.PatternHashTable.IterPatterns | Data_Structures/hash_table.py:186-191 | the patterns in bucket-then-chain order, each stored pattern exactly once |
| HashTable.PatternHashTable.Size | Data_Structures/hash_table.py:193-194 | `_size` is the number of stored patterns |
| HashTable.PatternHashTable.LoadPatterns | Data_Structures/hash_table.py:197-209 | the store after the lines is `Loaded(old, lines)`, the chains are `LoadedBuckets(old, lines)`, and the count is the number of patterns added |
| HashTable.PatternHashTable.Derive | Data_Structures/hash_table.py:212-216 | `None` for a pattern that is invalid or not stored; otherwise the derivation with the stored rule |
| LinkedList.AddWordKeepsNoDup | Data_Structures/linked_list.py:22-29 | `add` keeps the words duplicate-free, grows the list by one iff the word is new, and the members become the old ones plus the word |
| LinkedList.AddAllCounts | Data_Structures/linked_list.py:12-48 | after any sequence of `add` calls the list holds exactly the distinct words added, so its length is their number |
| LinkedList.AddAllSnoc | Data_Structures/linked_list.py:22-29 | adding words one by one is adding the last to the list of the others |
| LinkedList.DerivedWordList.constructor | Data_Structures/linked_list.py:18-20 | a new list is empty |
| LinkedList.DerivedWordList.Add | Data_Structures/linked_list.py:22-29 | returns true iff the word was absent; then it is at the head, otherwise nothing changes |
| LinkedList.DerivedWordList.Contains | Data_Structures/linked_list.py:31-37 | the walk finds the word iff some reachable node holds it |
| LinkedList.DerivedWordList.ToList | Data_Structures/linked_list.py:39-45 | the words newest first, without duplicates, as many as `_size` |
| LinkedList.DerivedWordList.Len | Data_Structures/linked_list.py:47-48 | `__len__` is the number of words |
| LinkedList.AddWord | Data_Structures/linked_list.py:22-29 | `add`: the list unchanged when the word is present, else the word in front |
| LinkedList.AddAll | Data_Structures/linked_list.py:22-29 | the list after `add` with each word in turn |
| RootTree.NormalizeArabicIsCommon | Data_Structures/root_tree.py:32-42 | `normalize_arabic` equals `normalize_common`, leaves no blank, Alef variant or diacritic, and is idempotent |
| RootTree.RootErrorShape | Data_Structures/root_tree.py:53-71 | the reason is `None` exactly when the raw text is `X-Y-Z` with three Arabic letters |
| RootTree.AcceptedIsDashed | Data_Structures/root_tree.py:53-71 | an accepted root has the shape `X-Y-Z` |
| RootTree.DashedIsAccepted | Data_Structures/root_tree.py:53-71 | every `X-Y-Z` with three Arabic letters is accepted |
| RootTree.RootErrorNoLetters | Data_Structures/root_tree.py:56-57 | only dashes and spaces: "Root must contain letters." |
| RootTree.RootErrorNotArabic | Data_Structures/root_tree.py:58-59 | Latin letters: "Only Arabic letters are allowed." |
| RootTree.RootErrorTwoLetters | Data_Structures/root_tree.py:60-61 | two letters: "Root must have exactly 3 letters." |
| RootTree.RootErrorNoDashes | Data_Structures/root_tree.py:64-65 | three letters without dashes: the two-dashes message |
| RootTree.RootErrorEmptyPart | Data_Structures/root_tree.py:66-68 | an empty part between dashes: "Missing letter between dashes." |
| RootTree.RootErrorLongPart | Data_Structures/root_tree.py:69-70 | a part of two characters (letter and space): "Each part must be a single letter." |
| RootTree.CompactOfDashed | Data_Structures/root_tree.py:78-83 | the compact form of `X-Y-Z` without tatweel or Alef variants is `XYZ` |
| RootTree.FormatThree | Data_Structures/root_tree.py:86-90 | `format_dashed` of three letters is `X-Y-Z` |
| RootTree.DashedRoundTrip | Data_Structures/root_tree.py:78-90 | for a valid root with no tatweel or Alef variant, `format_dashed(to_compact_root(r)) == r` |
| RootTree.DropFormatDashes | Data_Structures/root_tree.py:86-90 | removing the dashes `format_dashed` adds gives back the dash-free text |
| RootTree.CompactRootForm | Data_Structures/root_tree.py:78-83 | a compact root is fully normalised and dash-free |
| RootTree.CompactRoundTrip | Data_Structures/root_tree.py:78-90 | for a normalised compact root, `to_compact_root(format_dashed(c)) == c` |
| RootTree.DerivedWordList.constructor | Data_Structures/root_tree.py:109-112 | a new list is empty |
| RootTree.DerivedWordList.Add | Data_Structures/root_tree.py:114-122 | returns true iff the word was not in the set; then it is at the head, otherwise nothing changes |
| RootTree.DerivedWordList.Prepend | Data_Structures/root_tree.py:117-121 | a fresh node in front of a list without the word |
| RootTree.DerivedWordList.Contains | Data_Structures/root_tree.py:124-125 | the membership set answers exactly membership in the list |
| RootTree.DerivedWordList.ToList | Data_Structures/root_tree.py:127-133 | the words newest first, without duplicates, as many as `_size` |
| RootTree.DerivedWordList.Len | Data_Structures/root_tree.py:135-136 | `__len__` is the number of words |
| RootTree.InorderSorted | Data_Structures/root_tree.py:303-311 | in-order traversal of an ordered tree is strictly increasing and lists every key exactly once |
| RootTree.InsertKeys | Data_Structures/root_tree.py:179-194 | attaching a key adds exactly that key |
| RootTree.InsertOrdered | Data_Structures/root_tree.py:179-194 | attaching at the end of the descent keeps the search order |
| RootTree.InsertLists | Data_Structures/root_tree.py:167-194 | a present key leaves the tree's lists and count alone; an absent one adds one node with its list |
| RootTree.InsertThenAdd | Data_Structures/root_tree.py:247-249 | inserting the root, then adding to its list, adds the word to the root's old words or to an empty list |
| RootTree.HeightBounds | Data_Structures/root_tree.py:322-328 | the height is 0 iff the tree is empty, and at most the node count, which is below 2^height |
| RootTree.MinNode | Data_Structures/root_tree.py:241-245 | the leftmost node holds the least key and its own list |
| RootTree.DeleteRec | Data_Structures/root_tree.py:219-239 | the result is ordered, has one node fewer iff the key was present, and maps every other key to its own list |
| RootTree.DeleteSuccessor | Data_Structures/root_tree.py:235-239 | promoting the successor with its list, then deleting it from the right subtree, removes exactly the deleted key |
| RootTree.SumWordsNode | Data_Structures/root_tree.py:290-296 | the count over a subtree is the node's list length plus both subtrees' counts |
| RootTree.SumWordsUpdate | Data_Structures/root_tree.py:287-299 | changing one root's list changes the total by the difference in that list's length |
| RootTree.RootsLoadedSpec | Data_Structures/root_tree.py:258-270 | loading adds exactly the compact roots of the valid stripped lines and keeps every existing list |
| RootTree.WithRootSpec | Data_Structures/root_tree.py:261-269 | one line adds its root if valid and changes no list |
| RootTree.RootsInSnoc | Data_Structures/root_tree.py:258-270 | the roots of the lines plus one more line are the roots so far plus that line's root |
| RootTree.RootBST.constructor | Data_Structures/root_tree.py:161-163 | a new tree holds no root |
| RootTree.RootBST.Find | Data_Structures/root_tree.py:201-209 | the descent returns a node iff the compact key is stored, and it is that key's node with its list |
| RootTree.RootBST.Insert | Data_Structures/root_tree.py:167-194 | raises the validator's reason for a bad root without change; otherwise returns the key's node and adds the key, with an empty list, only if it was absent |
| RootTree.RootBST.Attach | Data_Structures/root_tree.py:174-193 | the new node adds its key with an empty list and keeps the tree valid |
| RootTree.RootBST.Search | Data_Structures/root_tree.py:196-209 | a node iff the text is a valid root whose compact form is stored, and it is that root's node |
| RootTree.RootBST.Delete | Data_Structures/root_tree.py:211-217 | true iff the compact key was stored; afterwards it is gone and the other roots keep their lists |
| RootTree.RootBST.AddDerivedWord | Data_Structures/root_tree.py:247-249 | raises for a bad root without change; otherwise creates the root if missing and adds the word to its list, reporting whether it was new |
| RootTree.RootBST.AddTo | Data_Structures/root_tree.py:249 | adding to one stored root's list changes only that list |
| RootTree.RootBST.InsertFromUserInput | Data_Structures/root_tree.py:253-256 | raises like `insert`; otherwise true iff the root was new |
| RootTree.RootBST.LoadRoots | Data_Structures/root_tree.py:258-270 | the tree afterwards is `RootsLoaded(old, lines)`, and the count is the number of roots added |
| RootTree.RootBST.LoadLine | Data_Structures/root_tree.py:261-269 | one line adds its root if valid; true iff the tree grew |
| RootTree.RootBST.CountTotalDerivatives | Data_Structures/root_tree.py:287-299 | the total is the sum of the lists' lengths over all roots |
| RootTree.RootBST.CountFrom | Data_Structures/root_tree.py:290-296 | the recursive walk adds the subtree's list lengths to the running total |
| RootTree.RootBST.Size | Data_Structures/root_tree.py:319-320 | `_size` is the number of stored roots |
| RootTree.RootBST.Height | Data_Structures/root_tree.py:322-328 | the height is that of the tree; it is 0 iff the tree is empty, and bounds the root count from both sides |
| RootTree.RootBST.ListRoots | Data_Structures/root_tree.py:313-317 | the in-order keys, each formatted with dashes when asked |
| RootTree.RootBST.InorderSpec | Data_Structures/root_tree.py:303-317 | the in-order keys are increasing and are the stored roots, as many as `size()`; the dashed list turns back into them |
| RootTree.RootBST.CountIsSize | Data_Structures/root_tree.py:163-194 | `_size` equals the number of keys in the tree |
| RootTree.DashedAllRoundTrip | Data_Structures/root_tree.py:313-317 | the dashed list has one entry per compact root, and each turns back into its root |
| RootTree.HeightOf | Data_Structures/root_tree.py:323-326 | the recursion computes the height, which is 0 only for the empty tree, at most the node count, and such that the node count is below 2^height |
| RootTree.InorderOf | Data_Structures/root_tree.py:304-309 | the recursion yields one key per node, exactly the tree's keys, and for an ordered tree in strictly increasing order |
| RootTree.NormalizeArabic | Data_Structures/root_tree.py:32-42 | the root tree's own normalisation: blanks and tatweel removed, Alef unified, diacritics removed |
| RootTree.RootError | Data_Structures/root_tree.py:53-71 | `validate_dashed_root_with_reason`: the first failing check's message, in the source's order, or none |
| RootTree.ValidDashedRoot | Data_Structures/root_tree.py:74-75 | `validate_dashed_root`: no reason is given |
| RootTree.ToCompactRoot | Data_Structures/root_tree.py:78-83 | the normalised root with its dashes removed |
| RootTree.FormatDashed | Data_Structures/root_tree.py:86-90 | `"-".join`: the characters separated by dashes, whatever the length (empty or one-character text unchanged) |
| RootTree.TreeInsert | Data_Structures/root_tree.py:167-194 | the descent by code-point order that attaches a new node where it falls off, leaving a present key alone |
| RootTree.Inorder | Data_Structures/root_tree.py:303-311 | left subtree, node key, right subtree |
| RootTree.TreeHeight | Data_Structures/root_tree.py:322-328 | 0 for the empty tree, else one more than the higher subtree |
| RootTree.SumWords | Data_Structures/root_tree.py:287-299 | the sum of the list lengths over the given keys (the in-order keys of a tree) |
| RootTree.WithRoot | Data_Structures/root_tree.py:261-269 | one line of a roots file: skipped when blank after stripping or invalid, else its compact root added with an empty list unless already stored |
| RootTree.RootsLoaded | Data_Structures/root_tree.py:258-270 | the store after `load_roots_from_file` reads the lines in order |
| RootTree.RootsIn | Data_Structures/root_tree.py:258-270 | the compact roots of the lines whose stripped text is a valid dashed root |
| RootTree.DashedAll | Data_Structures/root_tree.py:315-316 | `format_dashed` applied to each root, in order |
| Generator.GeneratedOutcome | Engine/generator.py:34-77 | `ok` iff a word iff no error. ROOT_NOT_FOUND iff `search` fails; PATTERN_NOT_FOUND iff the root is found but the pattern is not; DERIVATION_FAILED iff both exist but the root fails `validate_dashed_root` |
| Generator.GeneratedWord | Engine/generator.py:58-77 | a successful result's word is the stored rule filled with the root's letters |
| Generator.GeneratedOnKeys | Engine/generator.py:40-66 | the result depends on which roots are stored, not on their lists |
| Generator.StoredKeepsRoots | Engine/generator.py:68-69 | storing adds no root, changes only this root's list, and changes no later generation result |
| Generator.StoredIdempotent | Engine/generator.py:68-69 | generating and storing the same pair twice stores once |
| Generator.StoreAllMissing | Engine/generator.py:40-47 | for a root that is not found, no generation changes the tree |
| Generator.StoreAllKeepsRoots | Engine/generator.py:89-91 | a family run adds no root and changes only this root's list |
| Generator.StoreAllWords | Engine/generator.py:89-91 | after a family run the root's list is its old list with every successful word added in order |
| Generator.OkWordsMembers | Engine/generator.py:89-91 | the words stored are exactly the successful results' words |
| Generator.StoreAllHolds | Engine/generator.py:89-91 | after a family run the root's list is duplicate-free and holds its old words and every successful word, nothing else |
| Generator.ResultsAt | Engine/generator.py:89-92 | the i-th result is the generation for the i-th pattern |
| Generator.RunStep | Engine/generator.py:89-92 | one more pattern appends its result and stores its word |
| Generator.FamilyOverStores | Engine/generator.py:79-92 | over the generator's own stores and a found root: one result per stored pattern, in iteration order, as many as the table's size; all succeed iff the root passes `validate_dashed_root`, otherwise all report DERIVATION_FAILED |
| Generator.Generated | Engine/generator.py:34-77 | `generate_one`'s result: ROOT_NOT_FOUND, then PATTERN_NOT_FOUND, then DERIVATION_FAILED, else the derived word |
| Generator.FromTable | Engine/generator.py:49-66 | the two table checks once the root is found |
| Generator.Stored | Engine/generator.py:68-69 | the tree after `store=True`: a derived word added to its root's list |
| Generator.Family | Engine/generator.py:79-92 | `generate_family`'s results: a lone ROOT_NOT_FOUND for a missing root, else one result per pattern |
| Generator.Found | Engine/generator.py:40 | `search(raw_root) is not None`: a valid dashed root whose compact form is stored; its absence is ROOT_NOT_FOUND |
| Generator.OkWords | Engine/generator.py:89-91 | the words of the successful results of `generate_family`, in pattern order, which are the words it stores |
| Generator.Results | Engine/generator.py:89-92 | the results of generating for each pattern in turn, each against the tree the earlier ones left |
| Generator.StoreAll | Engine/generator.py:89-91 | the tree after storing each pattern's word in turn |
| Generator.FamilyOverTable | Engine/generator.py:79-92 | for a found root and stored patterns: one result per pattern, in order; each succeeds iff the root passes `validate_dashed_root`, and otherwise reports DERIVATION_FAILED |
| Generator.MorphologicalGenerator.constructor | Engine/generator.py:30-32 | the generator holds the given tree and table |
| Generator.MorphologicalGenerator.GenerateOne | Engine/generator.py:34-77 | returns `Generated(...)`; with `store` the tree becomes `Stored(...)`, without it the tree is unchanged; the table never changes |
| Generator.MorphologicalGenerator.Check | Engine/generator.py:40-66 | the checks return the generation result and change nothing |
| Generator.MorphologicalGenerator.CheckTable | Engine/generator.py:49-66 | the table checks return PATTERN_NOT_FOUND, DERIVATION_FAILED or the word |
| Generator.MorphologicalGenerator.Store | Engine/generator.py:68-69 | the word joins its root's list; the table is untouched |
| Generator.MorphologicalGenerator.GenerateFamily | Engine/generator.py:79-92 | returns `Family(...)` over the table's patterns in iteration order: one ROOT_NOT_FOUND result with no pattern for a missing root, else one result per pattern; the tree becomes `StoreAll(...)` |
| Generator.MorphologicalGenerator.GenerateEach | Engine/generator.py:89-92 | the loop returns one result per pattern and stores every successful word |
| Generator.IterPatterns | Engine/generator.py:8-13 | the walk over buckets and chains yields each stored pattern exactly once |
| Validator.FirstMatch | Engine/validator.py:40-44 | the index of the first matching probe, within range |
| Validator.FirstMatchSpec | Engine/validator.py:40-44 | the index found matches and no earlier probe does; there is none iff no probe matches |
| Validator.FirstMatchAt | Engine/validator.py:40-44 | a match with no earlier match is the first match |
| Validator.FirstMatchSnoc | Engine/validator.py:40-44 | with no match so far, one more probe is the first match iff it matches |
| Validator.ValidationSound | Engine/validator.py:34-46 | OUI only for a found root, with the first pattern whose successful word normalises to the word |
| Validator.ValidationComplete | Engine/validator.py:34-46 | the result is OUI or NON; NON iff no pattern; NON iff the root is not found or no pattern's word matches |
| Validator.ValidationAgreesWithFamily | Engine/validator.py:40-46 | OUI iff some result of `generate_family` matches the word |
| Validator.ValidationOfGenerated | Engine/validator.py:38-44 | every word the generator produces for a stored pattern is accepted, whatever its diacritics |
| Validator.ValidatesGenerated | Engine/validator.py:34-46 | over the validator's own stores, a word the generator derives, whatever its diacritics, gets OUI |
| Validator.Validation | Engine/validator.py:34-46 | `validate`'s verdict: NON for a missing root, else OUI with the first matching pattern or NON |
| Validator.Matches | Engine/validator.py:42-43 | a probe matches when it succeeded with a word whose `normalize_common` form is the normalised target |
| Validator.Probed | Engine/validator.py:38-44 | the tree after `validate`: the words of the probes made, up to the match |
| Validator.Answer | Engine/validator.py:40-46 | the verdict from the probes' results: the first match's pattern, or NON |
| Validator.ValidationIgnores | Engine/validator.py:38-43 | a diacritic or blank added to the word changes neither the verdict nor the stored words |
| Validator.ShaddaIgnoredExample | Engine/validator.py:38-43 | كتّاب and كتاب compare equal after `normalize_common` |
| Validator.ValidationStores | Engine/validator.py:40-44 | afterwards the root's list holds its old words plus the word of every successful probe up to and including the match, with no duplicates; other roots are unchanged |
| Validator.ScanStep | Engine/validator.py:40-44 | one probe extends the first-match search and the stored words by that pattern |
| Validator.Matched | Engine/validator.py:40-44 | a first match inside a prefix of the patterns is the first match overall |
| Validator.MorphologicalValidator.constructor | Engine/validator.py:24-32 | the validator uses the generator's own tree and table |
| Validator.MorphologicalValidator.Validate | Engine/validator.py:34-46 | returns `Validation(...)` and leaves the tree as `Probed(...)`: no change for a root that is not found |
| Validator.ScanTable | Engine/validator.py:38-46 | for a found root, the loop over the table's patterns gives the verdict and stores the probed words |
| Validator.Probe | Engine/validator.py:41-43 | one probe: true iff the generated word matches; the tree becomes `Stored(...)` |
| Validator.ProbeNext | Engine/validator.py:40-43 | the i-th probe advances the search: true iff pattern i is the first match |
| Validator.Scan | Engine/validator.py:40-46 | the loop returns OUI with the first matching pattern or NON, and stores the words of the probes it made |

## Left out

- File reading in `load_roots_from_file` and `load_patterns_from_file`: the file is given as its sequence of lines.
- `get_all_derivatives` is not modelled. The same traversal is covered by `ListRoots` and `ToList`.
- `main.py`, `server.py` and the test scripts are not part of this model. They are input/output, HTTP plumbing, timing and printing.
- `_iter_patterns` of `Engine/validator.py:10-15` is a copy of the generator's; the model uses `Generator.IterPatterns` for both.
- The root tree's shape is a datatype value (`Tree`) held in a field, not `RootNode` objects with mutable `left`/`right` pointers. The derived-word lists remain objects shared between the tree and callers.
  - `insert` is modelled as a descent followed by attaching the new node to the value.
  - `_delete_recursive` works on that value. Overwriting `node.root`/`node.derived` with the successor's becomes a new node carrying the successor's key and list.
  - Aliasing of `RootNode` objects (a caller holding a node while the tree is rebuilt) is therefore not captured.
- Python's `set` inside the root tree's `DerivedWordList` is a Dafny `set<string>` field, which `Valid` keeps equal to the list's members. Its hashing is not modelled.
- The validator's `_roots` and `_patterns` must be its generator's own tree and table; `Valid` requires this. A validator built over different stores is not modelled.
- RootTree.RootBST.LoadRoots: does not state that the objects it adds to the tree's footprint are fresh.
- Validator.MorphologicalValidator.Validate: does not state that the objects it adds to the tree's footprint are fresh. The same holds for `Validator.ScanTable` and `Validator.Scan`.
- Python integers: `_size`, counts and the hash are unbounded; Python has no overflow here.

## Notes on the code

Points where the code decides a detail, with the lines that decide it:

- A normalised pattern must be at least 4 characters long (`Data_Structures/hash_table.py:100-102`), so فعل is refused.
- `DerivedWordList` keeps no frequency counts: `add` returns false on a duplicate and stores nothing (`Data_Structures/linked_list.py:22-29`, `Data_Structures/root_tree.py:114-122`).
- `validate` probes with the default `store=True` (`Engine/validator.py:41`), so every successful probe stores its word.
- The docstring of `_hash` describes the sum of `ord(ch) * 131^i`. The loop (`Data_Structures/hash_table.py:119-125`) actually weights the first character highest (`HashIsWeightedSum`).

Tatweel (U+0640) lies inside the letter range U+0621..U+064A (`Data_Structures/normalization.py:65-66`, `Data_Structures/root_tree.py:45-50`).
- The root tree's validator therefore accepts a root such as ـ-ت-ب. Its compact key has only two characters, because `normalize_arabic` removes tatweel.
- Derivation for it then fails `validate_dashed_root` of `normalization.py`, so `generate_one` can report DERIVATION_FAILED for a stored root (`Generator.GeneratedOutcome`, `Normalization.DiacriticsAreNotLetters`).
