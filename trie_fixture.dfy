/**
 * A hand-built double-array trie holding "bachelor", "jar", "badge" and "baby": the arrays
 * that the library's own test of `ContainsKey` installs with `SetArrays`. The walk for
 * "bachelor" follows `b`, `a` and `c` through the base and check arrays and then compares
 * "helor" with the tail run that starts at cell 1.
 */
module TrieFixture {
  import opened Wrappers
  import opened TrieModel
  import opened Trie
  import opened TrieProperties

  const FixtureBase: seq<int> := [0, 4, 0, 1, -15, -1, -12, 1, 0, 0, 0, 0, 0, 0, 0, -9]
  const FixtureCheck: seq<int> := [0, 0, 0, 7, 3, 3, 3, 1, 0, 0, 0, 0, 0, 0, 0, 1]
  const FixtureTail: seq<char> := "0helor#??ar#ge#y#"

  /** The state `SetArrays` leaves behind: the three arrays, and the cursor a new trie has. */
  function FixtureState(): (s: Arrays)
    ensures Valid(s) && |s.base| == |s.check| == 16
  {
    Arrays(FixtureBase, FixtureCheck, FixtureTail, 1)
  }

  /**
   * The cells the four walks read: the transitions `b`, `a`, `c`, `d`, `b` and `j`, the four
   * tail references and the four tail runs.
   */
  predicate WalkCells(s: Arrays) {
    && |s.base| == 16 && |s.check| == 16 && |s.tail| == 17
    && s.base[1] == 4 && s.check[7] == 1 && s.base[7] == 1 && s.check[3] == 7 && s.base[3] == 1
    && s.check[5] == 3 && s.base[5] == -1 && s.check[6] == 3 && s.base[6] == -12
    && s.check[4] == 3 && s.base[4] == -15 && s.check[15] == 1 && s.base[15] == -9
    && s.tail[1] == 'h' && s.tail[2] == 'e' && s.tail[3] == 'l' && s.tail[4] == 'o' && s.tail[5] == 'r'
    && s.tail[6] == '#' && s.tail[9] == 'a' && s.tail[10] == 'r' && s.tail[11] == '#'
    && s.tail[12] == 'g' && s.tail[13] == 'e' && s.tail[14] == '#' && s.tail[15] == 'y' && s.tail[16] == '#'
  }

  /** Every key that starts with "ba" reaches node 3 by `b` and then `a`. */
  lemma WalkBa(s: Arrays, key: string)
    requires WalkCells(s) && |key| >= 2 && key[0] == 'b' && key[1] == 'a'
    ensures Reach(s, key, 2) == Some(3)
  {
    ReachStep(s, key, 0, Root, 7);
    ReachStep(s, key, 1, 7, 3);
  }

  /** "bachelor": `b`, `a` and `c` lead to node 5, whose tail run at 1 is "helor#". */
  lemma WalkBachelor(s: Arrays)
    requires WalkCells(s)
    ensures Lookup(s, "bachelor", 0, Root) == Some(true) && Member(s, "bachelor")
  {
    var key := "bachelor";
    WalkBa(s, key);
    ReachStep(s, key, 2, 3, 5);
    assert TailMatches(s.tail, key, 3, 1);
    TailReached(s, key, 3, 5);
  }

  /** "jar": `j` leads to node 15, whose tail run at 9 is "ar#". */
  lemma WalkJar(s: Arrays)
    requires WalkCells(s)
    ensures Lookup(s, "jar", 0, Root) == Some(true) && Member(s, "jar")
  {
    var key := "jar";
    ReachStep(s, key, 0, Root, 15);
    assert TailMatches(s.tail, key, 1, 9);
    TailReached(s, key, 1, 15);
  }

  /** "badge": `b`, `a` and `d` lead to node 6, whose tail run at 12 is "ge#". */
  lemma WalkBadge(s: Arrays)
    requires WalkCells(s)
    ensures Lookup(s, "badge", 0, Root) == Some(true) && Member(s, "badge")
  {
    var key := "badge";
    WalkBa(s, key);
    ReachStep(s, key, 2, 3, 6);
    assert TailMatches(s.tail, key, 3, 12);
    TailReached(s, key, 3, 6);
  }

  /** "baby": `b`, `a` and `b` lead to node 4, whose tail run at 15 is "y#". */
  lemma WalkBaby(s: Arrays)
    requires WalkCells(s)
    ensures Lookup(s, "baby", 0, Root) == Some(true) && Member(s, "baby")
  {
    var key := "baby";
    WalkBa(s, key);
    ReachStep(s, key, 2, 3, 4);
    assert TailMatches(s.tail, key, 3, 15);
    TailReached(s, key, 3, 4);
  }

  /** "bad", a proper prefix of "badge", runs out on node 6 and is not a member. */
  lemma WalkBad(s: Arrays)
    requires WalkCells(s)
    ensures Lookup(s, "bad", 0, Root) == Some(false) && !Member(s, "bad")
  {
    var key := "bad";
    assert Lookup(s, key, 3, 6) == Some(false);
    assert Lookup(s, key, 2, 3) == Some(false);
    assert Lookup(s, key, 1, 7) == Some(false);
    LookupIsMember(s, key);
  }

  /** The words of the test's arrays: four members, and a prefix of two of them that is not. */
  lemma FixtureWords()
    ensures Lookup(FixtureState(), "bachelor", 0, Root) == Some(true) && Member(FixtureState(), "bachelor")
    ensures Lookup(FixtureState(), "jar", 0, Root) == Some(true) && Member(FixtureState(), "jar")
    ensures Lookup(FixtureState(), "badge", 0, Root) == Some(true) && Member(FixtureState(), "badge")
    ensures Lookup(FixtureState(), "baby", 0, Root) == Some(true) && Member(FixtureState(), "baby")
    ensures Lookup(FixtureState(), "bad", 0, Root) == Some(false) && !Member(FixtureState(), "bad")
  {
    var s := FixtureState();
    assert WalkCells(s);
    WalkBachelor(s);
    WalkJar(s);
    WalkBadge(s);
    WalkBaby(s);
    WalkBad(s);
  }

  /** The test itself: install the arrays in a new trie and ask for "bachelor". */
  method FindBachelor() returns (found: Result<bool>)
    ensures found == Success(true)
  {
    var trie := new DoubleArrayTrie.WithArrays(FixtureBase, FixtureCheck, FixtureTail);
    FixtureWords();
    found := trie.ContainsKey(Some("bachelor"));
  }
}
