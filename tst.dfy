/**
 * A persistent ternary search tree over characters (7_tst/src/tst.h).
 *
 * Every operation builds new nodes or folds over the tree; nothing is updated in place.
 * Words are handled as C strings: the character '\0' terminates a word, and reading past
 * the end of a sequence reads that terminator (`At`).
 */
module Tst {
  import opened Wrappers

  /** A character that can be stored in a node: anything but the terminator. */
  type NonNul = c: char | c != '\0' witness 'a'

  /**
   * A tree is empty (its character is '\0') or a node with three subtrees, an end-of-word
   * flag and a non-terminator character.
   */
  datatype Tst = Empty | Node(left: Tst, center: Tst, right: Tst, isEnd: bool, data: NonNul)

  /** The character at position i of a C string, '\0' once i is past the end. */
  function At(s: string, i: nat): char {
    if i < |s| then s[i] else '\0'
  }

  /** A word that contains no terminator, so the whole sequence is the C string. */
  predicate NoNul(s: string) {
    forall i :: 0 <= i < |s| ==> s[i] != '\0'
  }

  predicate IsProperPrefix(p: string, s: string) {
    |p| < |s| && p == s[..|p|]
  }

  predicate IsPrefix(p: string, s: string) {
    |p| <= |s| && p == s[..|p|]
  }

  /** The character stored in the root, '\0' for the empty tree. */
  function Data(t: Tst): char {
    if t.Empty? then '\0' else t.data
  }

  /** empty(): a tree is empty exactly when its character is the terminator. */
  function IsEmpty(t: Tst): (r: bool)
    ensures r <==> Data(t) == '\0'
  {
    t.Empty?
  }

  /** value(): the stored character, or logic_error("value_error") on the empty tree. */
  function Value(t: Tst): (r: Result<char, string>)
    ensures r.Ok? <==> !IsEmpty(t)
    ensures r.Ok? ==> r.value == Data(t) && r.value != '\0'
    ensures r.Err? ==> r.error == "value_error"
  {
    if t.Empty? then Err("value_error") else Ok(t.data)
  }

  /** word(): the end-of-word flag, or logic_error("word_error") on the empty tree. */
  function Word(t: Tst): (r: Result<bool, string>)
    ensures r.Ok? <==> !IsEmpty(t)
    ensures r.Ok? ==> r.value == t.isEnd
    ensures r.Err? ==> r.error == "word_error"
  {
    if t.Empty? then Err("word_error") else Ok(t.isEnd)
  }

  /** left(): the left subtree, or logic_error("left_error") on the empty tree. */
  function Left(t: Tst): (r: Result<Tst, string>)
    ensures r.Ok? <==> !IsEmpty(t)
    ensures r.Ok? ==> r.value == t.left && r.value < t
    ensures r.Err? ==> r.error == "left_error"
  {
    if t.Empty? then Err("left_error") else Ok(t.left)
  }

  /** center(): the centre subtree, or logic_error("center_error") on the empty tree. */
  function Center(t: Tst): (r: Result<Tst, string>)
    ensures r.Ok? <==> !IsEmpty(t)
    ensures r.Ok? ==> r.value == t.center && r.value < t
    ensures r.Err? ==> r.error == "center_error"
  {
    if t.Empty? then Err("center_error") else Ok(t.center)
  }

  /** right(): the right subtree, or logic_error("right_error") on the empty tree. */
  function Right(t: Tst): (r: Result<Tst, string>)
    ensures r.Ok? <==> !IsEmpty(t)
    ensures r.Ok? ==> r.value == t.right && r.value < t
    ensures r.Err? ==> r.error == "right_error"
  {
    if t.Empty? then Err("right_error") else Ok(t.right)
  }

  /**
   * TST(str): a chain of centre nodes, one per character of the C string, the last one
   * marked as the end of a word. The empty string gives the empty tree.
   */
  function FromString(s: string): Tst
    decreases |s|
  {
    if At(s, 0) == '\0' then Empty
    else Node(Empty, if At(s, 1) == '\0' then Empty else FromString(s[1..]), Empty, At(s, 1) == '\0', s[0])
  }

  /**
   * operator+: insert a word. A smaller character goes left, a larger one right, an equal one
   * descends the centre with the rest of the word; the node reached on an equal character gets
   * its end flag overwritten with "the word ends here".
   */
  function Insert(t: Tst, s: string): Tst
    decreases t, |s|
  {
    if t.Empty? then FromString(s)
    else if At(s, 0) == '\0' then t
    else if s[0] == t.data then Node(t.left, Insert(t.center, s[1..]), t.right, At(s, 1) == '\0', t.data)
    else if s[0] < t.data then Node(Insert(t.left, s), t.center, t.right, t.isEnd, t.data)
    else Node(t.left, t.center, Insert(t.right, s), t.isEnd, t.data)
  }

  /** exist(str): the search follows the same order as the insertion and reads the end flag. */
  function Exist(t: Tst, s: string): bool
    decreases t
  {
    if At(s, 0) == '\0' || t.Empty? then false
    else if At(s, 1) == '\0' && s[0] == t.data then t.isEnd
    else if s[0] == t.data then Exist(t.center, s[1..])
    else if s[0] < t.data then Exist(t.left, s)
    else Exist(t.right, s)
  }

  /** prefixHelper(str): how many leading characters of str the tree can follow. */
  function PrefixLength(t: Tst, s: string): (n: nat)
    ensures n <= |s|
    ensures forall i :: 0 <= i < n ==> s[i] != '\0'
    decreases t
  {
    if At(s, 0) == '\0' || t.Empty? then 0
    else if t.data == s[0] then 1 + PrefixLength(t.center, s[1..])
    else if s[0] < t.data then PrefixLength(t.left, s)
    else PrefixLength(t.right, s)
  }

  /**
   * prefix(str): the longest prefix of str that the tree holds as a path of nodes; in a tree
   * built by insertions that is the longest prefix shared with a stored word
   * (PrefixIsLongestShared).
   */
  function Prefix(t: Tst, s: string): (p: string)
    ensures |p| <= |s| && p == s[..|p|]
    ensures NoNul(p)
  {
    s[..PrefixLength(t, s)]
  }

  /**
   * The reference definition of "the tree holds w as a path": starting at the root, each
   * character of w is found by moving left or right and then consumed by a node, whose centre
   * subtree continues with the rest of w. End flags play no part.
   */
  predicate Reaches(t: Tst, w: string)
    decreases t
  {
    if |w| == 0 || t.Empty? then false
    else if w[0] == t.data then |w| == 1 || Reaches(t.center, w[1..])
    else if w[0] < t.data then Reaches(t.left, w)
    else Reaches(t.right, w)
  }

  /** Detail::fold: a left fold over a range, the first element applied first. */
  function FoldSeq<T, A>(s: seq<T>, acc: A, f: (A, T) -> A): A
    decreases |s|
  {
    if |s| == 0 then acc else FoldSeq(s[1..], f(acc, s[0]), f)
  }

  /** fold(acc, functor): folds the right subtree, then the centre, then the left, then the node. */
  function Fold<A>(t: Tst, acc: A, f: (A, char) -> A): A
    decreases t
  {
    if t.Empty? then acc else f(Fold(t.left, Fold(t.center, Fold(t.right, acc, f), f), f), t.data)
  }

  /** The characters of the tree in the order fold visits them. */
  function Chars(t: Tst): seq<char>
    decreases t
  {
    if t.Empty? then [] else Chars(t.right) + Chars(t.center) + Chars(t.left) + [t.data]
  }

  /** The number of non-empty nodes. */
  function NodeCount(t: Tst): nat
    decreases t
  {
    if t.Empty? then 0 else NodeCount(t.left) + NodeCount(t.center) + NodeCount(t.right) + 1
  }

  /** size(): fold with "add one" from zero. */
  function Size(t: Tst): (n: nat)
    ensures n == NodeCount(t)
  {
    FoldVisitsChars<nat>(t, 0, (acc: nat, c: char) => 1 + acc);
    FoldSeqCounts(Chars(t), 0);
    CharsCount(t);
    Fold<nat>(t, 0, (acc: nat, c: char) => 1 + acc)
  }

  // ---------------------------------------------------------------------------------------
  // Fold

  lemma {:induction false} FoldSeqAppend<T, A>(a: seq<T>, b: seq<T>, acc: A, f: (A, T) -> A)
    ensures FoldSeq(a + b, acc, f) == FoldSeq(b, FoldSeq(a, acc, f), f)
    decreases |a|
  {
    if |a| == 0 {
      assert a + b == b;
    } else {
      assert (a + b)[0] == a[0] && (a + b)[1..] == a[1..] + b;
      FoldSeqAppend(a[1..], b, f(acc, a[0]), f);
    }
  }

  /** fold visits the nodes right, centre, left, node: it is Detail::fold over Chars(t). */
  lemma {:induction false} FoldVisitsChars<A>(t: Tst, acc: A, f: (A, char) -> A)
    ensures Fold(t, acc, f) == FoldSeq(Chars(t), acc, f)
    decreases t
  {
    if t.Node? {
      var a1 := Fold(t.right, acc, f);
      var a2 := Fold(t.center, a1, f);
      var a3 := Fold(t.left, a2, f);
      FoldVisitsChars(t.right, acc, f);
      FoldVisitsChars(t.center, a1, f);
      FoldVisitsChars(t.left, a2, f);
      FoldSeqAppend(Chars(t.right), Chars(t.center), acc, f);
      FoldSeqAppend(Chars(t.right) + Chars(t.center), Chars(t.left), acc, f);
      FoldSeqAppend(Chars(t.right) + Chars(t.center) + Chars(t.left), [t.data], acc, f);
      assert [t.data][1..] == [];
    }
  }

  lemma {:induction false} FoldSeqCounts<T>(s: seq<T>, acc: nat)
    ensures FoldSeq<T, nat>(s, acc, (a: nat, x: T) => 1 + a) == acc + |s|
    decreases |s|
  {
    if |s| > 0 {
      FoldSeqCounts(s[1..], 1 + acc);
    }
  }

  lemma {:induction false} CharsCount(t: Tst)
    ensures |Chars(t)| == NodeCount(t)
    decreases t
  {
    if t.Node? {
      CharsCount(t.left);
      CharsCount(t.center);
      CharsCount(t.right);
    }
  }

  /** size() counts the non-empty nodes. */
  lemma SizeCountsNodes(t: Tst)
    ensures Size(t) == NodeCount(t)
  {
    FoldVisitsChars<nat>(t, 0, (acc: nat, c: char) => 1 + acc);
    FoldSeqCounts(Chars(t), 0);
    CharsCount(t);
  }

  // ---------------------------------------------------------------------------------------
  // Building from a string

  lemma {:induction false} FromStringShape(s: string)
    requires NoNul(s) && |s| > 0
    ensures var t := FromString(s);
      t.Node? && t.left.Empty? && t.right.Empty? && t.data == s[0] &&
      t.isEnd == (|s| == 1) && t.center == FromString(s[1..])
      && NodeCount(t) == |s|
    decreases |s|
  {
    if |s| > 1 {
      FromStringShape(s[1..]);
    }
  }

  /** TST(s) for a non-empty word holds exactly that word, in |s| nodes. */
  lemma {:induction false} FromStringHoldsExactly(s: string, w: string)
    requires NoNul(s) && NoNul(w) && |s| > 0
    ensures Exist(FromString(s), w) <==> w == s
    ensures Size(FromString(s)) == |s|
    decreases |s|
  {
    FromStringShape(s);
    SizeCountsNodes(FromString(s));
    if |s| > 1 && |w| > 1 && w[0] == s[0] {
      FromStringHoldsExactly(s[1..], w[1..]);
      assert w == [w[0]] + w[1..] && s == [s[0]] + s[1..];
    }
  }

  // ---------------------------------------------------------------------------------------
  // Insertion and search

  /** Inserting the empty word changes nothing; inserting into the empty tree builds TST(s). */
  lemma InsertTrivialCases(t: Tst, s: string)
    ensures Insert(t, "") == t
    ensures Insert(Empty, s) == FromString(s)
  {
  }

  /**
   * The words of t + s: s itself, and every word of t except the proper prefixes of s, whose
   * end flags the insertion overwrites on its way down.
   */
  lemma {:induction false} ExistAfterInsert(t: Tst, s: string, w: string)
    requires NoNul(s) && NoNul(w) && |s| > 0
    ensures Exist(Insert(t, s), w) <==> w == s || (Exist(t, w) && !IsProperPrefix(w, s))
    decreases t, |s|
  {
    if t.Empty? {
      FromStringHoldsExactly(s, w);
    } else if |w| == 0 {
    } else if s[0] == t.data {
      if w[0] == t.data && |w| > 1 {
        if |s| == 1 {
          assert Insert(t.center, s[1..]) == t.center;
        } else {
          ExistAfterInsert(t.center, s[1..], w[1..]);
          assert w == [w[0]] + w[1..] && s == [s[0]] + s[1..];
          assert IsProperPrefix(w, s) <==> IsProperPrefix(w[1..], s[1..]);
        }
      }
    } else if s[0] < t.data {
      if w[0] < t.data {
        ExistAfterInsert(t.left, s, w);
      }
    } else {
      if t.data < w[0] {
        ExistAfterInsert(t.right, s, w);
      }
    }
  }

  /** After t + s the word s is found. */
  lemma InsertedWordExists(t: Tst, s: string)
    requires NoNul(s) && |s| > 0
    ensures Exist(Insert(t, s), s)
  {
    ExistAfterInsert(t, s, s);
  }

  /** Inserting "ab" after "a" un-marks "a". */
  lemma InsertUnmarksPrefix()
    ensures Exist(Insert(Empty, "a"), "a")
    ensures !Exist(Insert(Insert(Empty, "a"), "ab"), "a")
  {
    InsertedWordExists(Empty, "a");
    ExistAfterInsert(Insert(Empty, "a"), "ab", "a");
  }

  /** Nothing is found with the empty word or in the empty tree. */
  lemma ExistTrivialCases(t: Tst, s: string)
    ensures !Exist(t, "")
    ensures !Exist(Empty, s)
  {
  }

  // ---------------------------------------------------------------------------------------
  // Paths and prefixes

  /** A word found by exist is a path of the tree. */
  lemma {:induction false} ExistReaches(t: Tst, w: string)
    requires NoNul(w) && Exist(t, w)
    ensures Reaches(t, w)
    decreases t
  {
    if w[0] == t.data {
      if At(w, 1) != '\0' {
        ExistReaches(t.center, w[1..]);
      }
    } else if w[0] < t.data {
      ExistReaches(t.left, w);
    } else {
      ExistReaches(t.right, w);
    }
  }

  /** Paths are closed under taking non-empty prefixes. */
  lemma {:induction false} ReachesPrefix(t: Tst, w: string, j: nat)
    requires Reaches(t, w) && 0 < j <= |w|
    ensures Reaches(t, w[..j])
    decreases t
  {
    if w[0] == t.data {
      if j > 1 {
        ReachesPrefix(t.center, w[1..], j - 1);
        assert w[..j][1..] == w[1..][..j - 1];
      }
    } else if w[0] < t.data {
      ReachesPrefix(t.left, w, j);
    } else {
      ReachesPrefix(t.right, w, j);
    }
  }

  /**
   * prefixHelper returns the length of the longest prefix of s that is a path: that prefix is
   * a path (when non-empty) and one more character is not.
   */
  lemma {:induction false} PrefixLengthIsLongest(t: Tst, s: string)
    ensures var n := PrefixLength(t, s);
      (n > 0 ==> Reaches(t, s[..n])) &&
      (n < |s| && s[n] != '\0' ==> !Reaches(t, s[..n + 1]))
    decreases t
  {
    var n := PrefixLength(t, s);
    if At(s, 0) == '\0' || t.Empty? {
    } else if t.data == s[0] {
      PrefixLengthIsLongest(t.center, s[1..]);
      assert s[..n][1..] == s[1..][..n - 1];
      if n < |s| && s[n] != '\0' {
        assert s[..n + 1][1..] == s[1..][..n];
      }
    } else if s[0] < t.data {
      PrefixLengthIsLongest(t.left, s);
    } else {
      PrefixLengthIsLongest(t.right, s);
    }
  }

  /** A path of the tree is followed in full by prefixHelper. */
  lemma {:induction false} ReachesFullPrefix(t: Tst, w: string)
    requires NoNul(w) && Reaches(t, w)
    ensures PrefixLength(t, w) == |w| && Prefix(t, w) == w
    decreases t
  {
    if w[0] == t.data {
      if |w| > 1 {
        ReachesFullPrefix(t.center, w[1..]);
      }
    } else if w[0] < t.data {
      ReachesFullPrefix(t.left, w);
    } else {
      ReachesFullPrefix(t.right, w);
    }
  }

  /** Insertion adds the inserted word as a path and keeps every existing path. */
  lemma {:induction false} InsertReaches(t: Tst, s: string, w: string)
    requires NoNul(s) && |s| > 0
    ensures Reaches(Insert(t, s), s)
    ensures Reaches(t, w) ==> Reaches(Insert(t, s), w)
    decreases t, |s|
  {
    if t.Empty? {
      FromStringReaches(s);
    } else if s[0] == t.data {
      if |s| > 1 {
        if |w| > 1 {
          InsertReaches(t.center, s[1..], w[1..]);
        } else {
          InsertReaches(t.center, s[1..], "");
        }
      }
    } else if s[0] < t.data {
      InsertReaches(t.left, s, w);
    } else {
      InsertReaches(t.right, s, w);
    }
  }

  lemma {:induction false} FromStringReaches(s: string)
    requires NoNul(s) && |s| > 0
    ensures Reaches(FromString(s), s)
    decreases |s|
  {
    if |s| > 1 {
      FromStringReaches(s[1..]);
    }
  }

  /** prefix(s) equals s once s has been inserted, whatever is inserted afterwards. */
  lemma PrefixOfInsertedWord(t: Tst, s: string, later: seq<string>)
    requires NoNul(s) && |s| > 0
    requires forall i :: 0 <= i < |later| ==> NoNul(later[i]) && |later[i]| > 0
    ensures Prefix(FoldSeq(later, Insert(t, s), Insert), s) == s
  {
    InsertReaches(t, s, s);
    InsertsKeepPath(Insert(t, s), later, s);
    ReachesFullPrefix(FoldSeq(later, Insert(t, s), Insert), s);
  }

  lemma {:induction false} InsertsKeepPath(t: Tst, words: seq<string>, w: string)
    requires forall i :: 0 <= i < |words| ==> NoNul(words[i]) && |words[i]| > 0
    requires Reaches(t, w)
    ensures Reaches(FoldSeq(words, t, Insert), w)
    decreases |words|
  {
    if |words| > 0 {
      InsertReaches(t, words[0], w);
      InsertsKeepPath(Insert(t, words[0]), words[1..], w);
    }
  }

  // ---------------------------------------------------------------------------------------
  // Prefixes shared with stored words

  /** p begins some word that exist() finds in the tree. */
  ghost predicate SharedWithWord(t: Tst, p: string)
  {
    exists v :: NoNul(v) && Exist(t, v) && IsPrefix(p, v)
  }

  /** Every path of the tree leads on to a stored word. */
  ghost predicate PathsLeadToWords(t: Tst)
  {
    forall w :: Reaches(t, w) ==> SharedWithWord(t, w)
  }

  /** A non-empty prefix of a stored word is a path of the tree, whatever the tree. */
  lemma SharedIsPath(t: Tst, p: string)
    requires |p| > 0 && SharedWithWord(t, p)
    ensures Reaches(t, p)
  {
    var v :| NoNul(v) && Exist(t, v) && IsPrefix(p, v);
    ExistReaches(t, v);
    ReachesPrefix(t, v, |p|);
  }

  /** TST(s) has no path but the prefixes of s. */
  lemma {:induction false} FromStringPaths(s: string, w: string)
    requires NoNul(s) && |s| > 0 && Reaches(FromString(s), w)
    ensures IsPrefix(w, s)
    decreases |s|
  {
    if |w| > 1 {
      FromStringPaths(s[1..], w[1..]);
      assert w == [w[0]] + w[1..];
    }
  }

  /** The only paths t + s adds are prefixes of s. */
  lemma {:induction false} InsertNewPaths(t: Tst, s: string, w: string)
    requires NoNul(s) && |s| > 0 && Reaches(Insert(t, s), w)
    ensures Reaches(t, w) || IsPrefix(w, s)
    decreases t, |s|
  {
    if t.Empty? {
      FromStringPaths(s, w);
    } else if s[0] == t.data {
      if w[0] == t.data && |w| > 1 {
        if |s| == 1 {
          assert Insert(t.center, s[1..]) == t.center;
        } else {
          InsertNewPaths(t.center, s[1..], w[1..]);
          assert w == [w[0]] + w[1..] && s == [s[0]] + s[1..];
        }
      }
    } else if s[0] < t.data {
      if w[0] < t.data {
        InsertNewPaths(t.left, s, w);
      }
    } else {
      if t.data < w[0] {
        InsertNewPaths(t.right, s, w);
      }
    }
  }

  /**
   * Insertion keeps every path leading to a stored word: a new path leads to s, and an old one
   * to its old word, or to s when that word was a prefix of s that the insertion unmarked.
   */
  lemma InsertKeepsPathsLeadToWords(t: Tst, s: string)
    requires NoNul(s) && |s| > 0 && PathsLeadToWords(t)
    ensures PathsLeadToWords(Insert(t, s))
  {
    var t' := Insert(t, s);
    forall w | Reaches(t', w)
      ensures SharedWithWord(t', w)
    {
      InsertedWordExists(t, s);
      InsertNewPaths(t, s, w);
      if Reaches(t, w) {
        var v :| NoNul(v) && Exist(t, v) && IsPrefix(w, v);
        ExistAfterInsert(t, s, v);
        if !Exist(t', v) {
          assert w == s[..|w|];
        }
      }
    }
  }

  lemma {:induction false} BuiltPathsLeadToWords(t: Tst, words: seq<string>)
    requires forall i :: 0 <= i < |words| ==> NoNul(words[i]) && |words[i]| > 0
    requires PathsLeadToWords(t)
    ensures PathsLeadToWords(FoldSeq(words, t, Insert))
    decreases |words|
  {
    if |words| > 0 {
      InsertKeepsPathsLeadToWords(t, words[0]);
      BuiltPathsLeadToWords(Insert(t, words[0]), words[1..]);
    }
  }

  /**
   * In a tree built by inserting words into the empty tree, prefix(s) is the longest prefix of
   * s shared with a stored word: it begins a stored word, and one more character of s does not.
   */
  lemma PrefixIsLongestShared(words: seq<string>, s: string)
    requires forall i :: 0 <= i < |words| ==> NoNul(words[i]) && |words[i]| > 0
    ensures var t := FoldSeq(words, Empty, Insert);
      var p := Prefix(t, s);
      (|p| > 0 ==> SharedWithWord(t, p)) &&
      (|p| < |s| && s[|p|] != '\0' ==> !SharedWithWord(t, s[..|p| + 1]))
  {
    var t := FoldSeq(words, Empty, Insert);
    BuiltPathsLeadToWords(Empty, words);
    PrefixLengthIsLongest(t, s);
    var n := PrefixLength(t, s);
    if n < |s| && s[n] != '\0' && SharedWithWord(t, s[..n + 1]) {
      SharedIsPath(t, s[..n + 1]);
    }
  }
}
