/**
 * The derived-word list (Data_Structures/linked_list.py): a singly linked list of words,
 * newest first, that refuses duplicates by walking the list before every prepend.
 */
module LinkedList {
  import opened Text

  /** The list `add` leaves behind: unchanged if `w` is already there, otherwise `w` in front. */
  function AddWord(ws: seq<string>, w: string): (r: seq<string>)
  {
    if w in ws then ws else [w] + ws
  }

  /** The words a fresh list holds after `add` was called with each of `adds`, in order. */
  function AddAll(ws: seq<string>, adds: seq<string>): seq<string>
    decreases |adds|
  {
    if adds == [] then ws else AddAll(AddWord(ws, adds[0]), adds[1..])
  }

  /** `add` never creates a duplicate and grows the list by one exactly for a new word. */
  lemma AddWordKeepsNoDup(ws: seq<string>, w: string)
    requires NoDup(ws)
    ensures NoDup(AddWord(ws, w))
    ensures |AddWord(ws, w)| == if w in ws then |ws| else |ws| + 1
    ensures forall x :: x in AddWord(ws, w) <==> x == w || x in ws
  {
    if w !in ws {
      var r := [w] + ws;
      assert forall k | 1 <= k < |r| :: r[k] == ws[k - 1];
    }
  }

  /**
   * With no removal, the words a list holds are exactly the distinct words ever added, once
   * each: so `len` counts the distinct words that were added.
   */
  lemma {:induction false} AddAllCounts(ws: seq<string>, adds: seq<string>)
    requires NoDup(ws)
    ensures NoDup(AddAll(ws, adds))
    ensures forall x :: x in AddAll(ws, adds) <==> x in ws || x in adds
    ensures |AddAll(ws, adds)| == |set x | x in ws + adds|
    decreases |adds|
  {
    if adds == [] {
      NoDupCardinality(ws);
      assert ws + adds == ws;
    } else {
      AddWordKeepsNoDup(ws, adds[0]);
      assert AddAll(ws, adds) == AddAll(AddWord(ws, adds[0]), adds[1..]);
      AddAllCounts(AddWord(ws, adds[0]), adds[1..]);
      assert forall x :: x in adds <==> x == adds[0] || x in adds[1..];
      assert (set x | x in AddWord(ws, adds[0]) + adds[1..]) == set x | x in ws + adds;
    }
  }

  /** Adding one more word after a run of adds is the same as one add at the end of the run. */
  lemma {:induction false} AddAllSnoc(ws: seq<string>, adds: seq<string>, w: string)
    ensures AddAll(ws, adds + [w]) == AddWord(AddAll(ws, adds), w)
    decreases |adds|
  {
    if adds == [] {
      assert adds + [w] == [w];
    } else {
      assert (adds + [w])[1..] == adds[1..] + [w];
      AddAllSnoc(AddWord(ws, adds[0]), adds[1..], w);
    }
  }

  /** A sequence without duplicates has as many elements as its set of elements. */
  lemma {:induction false} NoDupCardinality<T>(s: seq<T>)
    requires NoDup(s)
    ensures |set x | x in s| == |s|
  {
    if s != [] {
      var t := s[1..];
      assert NoDup(t) by {
        assert forall i | 0 <= i < |t| :: t[i] == s[i + 1];
      }
      NoDupCardinality(t);
      assert s[0] !in t by {
        assert forall i | 0 <= i < |t| :: t[i] == s[i + 1];
      }
      assert (set x | x in s) == (set x | x in t) + {s[0]};
    }
  }

  /** `DerivedWordNode`: one word and the link to the next node. */
  class DerivedWordNode {
    const word: string
    var next: DerivedWordNode?

    constructor (word: string)
      ensures this.word == word && next == null
    {
      this.word := word;
      next := null;
    }
  }

  /** `DerivedWordList` with linear-search membership. */
  class DerivedWordList {
    var head: DerivedWordNode?
    /** `_size`. */
    var size: nat
    /** The nodes reachable from `head`, in link order. */
    ghost var spine: seq<DerivedWordNode>
    /** The words those nodes hold, newest first. */
    ghost var words: seq<string>
    ghost var Repr: set<object>

    ghost predicate Valid()
      reads this, Repr
      ensures Valid() ==> this in Repr
    {
      && this in Repr
      && |spine| == |words|
      && (forall i | 0 <= i < |spine| :: spine[i] in Repr)
      && head == (if spine == [] then null else spine[0])
      && (forall i {:trigger spine[i].next} | 0 <= i < |spine| - 1 :: spine[i].next == spine[i + 1])
      && (spine != [] ==> spine[|spine| - 1].next == null)
      && (forall i {:trigger words[i]} | 0 <= i < |spine| :: spine[i].word == words[i])
      && NoDup(spine)
      && NoDup(words)
      && size == |words|
    }

    /** `__init__`: an empty list. */
    constructor ()
      ensures Valid() && fresh(Repr) && words == []
    {
      head := null;
      size := 0;
      spine := [];
      words := [];
      Repr := {this};
    }

    /** `add`: refuse a word already present, otherwise prepend it and count it. */
    method Add(word: string) returns (added: bool)
      requires Valid()
      modifies this
      ensures Valid() && fresh(Repr - old(Repr))
      ensures added <==> word !in old(words)
      ensures words == AddWord(old(words), word)
    {
      var present := Contains(word);
      if present {
        return false;
      }
      ghost var s0, w0 := spine, words;
      var node := new DerivedWordNode(word);
      assert node !in s0;
      node.next := head;
      head := node;
      size := size + 1;
      spine := [node] + s0;
      words := [word] + w0;
      Repr := Repr + {node};
      forall j | 0 <= j < |spine| - 1
        ensures spine[j].next == spine[j + 1]
      {
        if j > 0 {
          assert spine[j] == s0[j - 1] && spine[j] != node;
        }
      }
      assert forall j | 1 <= j < |spine| :: spine[j] == s0[j - 1] && words[j] == w0[j - 1];
      AddWordKeepsNoDup(w0, word);
      NoDupPrepend(node, s0);
      return true;
    }

    /** `contains`: walk the list until the word is found. */
    method Contains(word: string) returns (found: bool)
      requires Valid()
      ensures found <==> word in words
    {
      var current := head;
      ghost var i := 0;
      while current != null
        invariant 0 <= i <= |spine|
        invariant i < |spine| ==> current == spine[i]
        invariant i == |spine| ==> current == null
        invariant forall j | 0 <= j < i :: words[j] != word
        decreases |spine| - i
      {
        if current.word == word {
          assert words[i] == word;
          return true;
        }
        current := current.next;
        i := i + 1;
      }
      return false;
    }

    /** `to_list`: the words newest first; no word twice, and as many as `len` reports. */
    method ToList() returns (ws: seq<string>)
      requires Valid()
      ensures ws == words
      ensures NoDup(ws) && |ws| == size
    {
      ws := [];
      var current := head;
      ghost var i := 0;
      while current != null
        invariant 0 <= i <= |spine|
        invariant i < |spine| ==> current == spine[i]
        invariant i == |spine| ==> current == null
        invariant ws == words[..i]
        decreases |spine| - i
      {
        ws := ws + [current.word];
        current := current.next;
        i := i + 1;
      }
      assert words[..i] == words;
    }

    /** `__len__`. */
    method Len() returns (n: nat)
      requires Valid()
      ensures n == |words|
    {
      return size;
    }
  }
}
