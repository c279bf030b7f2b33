/**
 * What the double-array trie promises, stated about the functions of module TrieModel (and
 * so, through the contracts of module Trie, about the class): where a run is written in the
 * tail, which base value the free-slot search picks, what `Add` leaves behind when it
 * answers false or true, and the behaviour of a fresh trie.
 */
module TrieProperties {
  import opened Wrappers
  import opened CharacterValues
  import opened TrieModel

  // ---------------------------------------------------------------------------------------
  // Writing a run to the tail
  // ---------------------------------------------------------------------------------------

  /**
   * `SetTailValues(key, k)` stores the rest of the key and a terminator at the old cursor
   * `p`, keeps every other old cell, and moves the cursor past the terminator; a later
   * `CheckTailValues(key, k, p)` then succeeds, provided the key holds no terminator.
   */
  lemma SetTailStoresRun(s: Arrays, key: string, k: nat)
    requires Valid(s) && k < |key|
    requires forall i :: k <= i < |key| ==> key[i] != Terminator
    ensures SetTail(s, key, k).tailPosition == s.tailPosition + |key| - k + 1
    ensures |SetTail(s, key, k).tail| >= |s.tail|
    ensures forall i :: 0 <= i < |s.tail| && !(s.tailPosition <= i <= s.tailPosition + |key| - k) ==>
              SetTail(s, key, k).tail[i] == s.tail[i]
    ensures TailMatches(SetTail(s, key, k).tail, key, k, s.tailPosition)
  {
    var p := s.tailPosition;
    var w := WriteKey(s.tail, p, key, k, |key|);
    var r := SetTail(s, key, k).tail;
    WriteKeyCells(s.tail, p, key, k, |key|);
    SetAtCells(w, p + |key| - k, Terminator, Blank);
    assert r == SetAt(w, p + |key| - k, Terminator, Blank);
    forall i | k <= i < |key|
      ensures r[p + i - k] == key[i]
    {
      assert w[p + i - k] == key[k + (p + i - k) - p];
    }
    TailMatchesCells(r, key, k, p);
  }

  // ---------------------------------------------------------------------------------------
  // The search for a free base value
  // ---------------------------------------------------------------------------------------

  /** Every slot `b + value(c)` for a character `c` of `cs` lies inside `check` and is free. */
  ghost predicate AllFree(check: seq<int>, cs: seq<char>, b: int) {
    forall m :: 0 <= m < |cs| ==>
      0 <= b + GetCharacterValue(cs[m]) < |check| && check[b + GetCharacterValue(cs[m])] == 0
  }

  /** The search from candidate `from` finds the first candidate whose slots are all free. */
  lemma {:induction false} AvailableBaseIsFirst(check: seq<int>, cs: seq<char>, from: int)
    requires |cs| > 0 && AvailableBase(check, cs, from).Some?
    ensures AllFree(check, cs, AvailableBase(check, cs, from).value)
    ensures forall b :: from <= b < AvailableBase(check, cs, from).value ==> !AllFree(check, cs, b)
    decreases |check| - from - GetCharacterValue(cs[0])
  {
    var b := AvailableBase(check, cs, from).value;
    ProbeFromAvailable(check, cs, b, 0);
    ProbeFromAvailable(check, cs, from, 0);
    if ProbeFrom(check, cs, from, 0) == Taken {
      AvailableBaseIsFirst(check, cs, from + 1);
    }
  }

  /**
   * `GetAvailableBaseValue(cs)`, where it returns, returns the least base value from 1 on
   * whose slots are all free.
   */
  lemma AvailableBaseIsLeast(check: seq<int>, cs: seq<char>)
    requires |cs| > 0 && AvailableBaseFor(check, cs).Some?
    ensures AvailableBaseFor(check, cs).value >= 1
    ensures AllFree(check, cs, AvailableBaseFor(check, cs).value)
    ensures forall b :: 1 <= b < AvailableBaseFor(check, cs).value ==> !AllFree(check, cs, b)
  {
    AvailableBaseIsFirst(check, cs, 1);
  }

  // ---------------------------------------------------------------------------------------
  // The outcome of Add
  // ---------------------------------------------------------------------------------------

  /**
   * `Add` answers false exactly when the descent ends on a matching tail run or inside the
   * transitions, and then nothing has changed.
   */
  lemma InsertFalseChangesNothing(s: Arrays, key: string)
    requires Valid(s) && Insert(s, key).Some?
    ensures !Insert(s, key).value.0 <==> Descend(s, key, 0, Root).Present? || Descend(s, key, 0, Root).Exhausted?
    ensures !Insert(s, key).value.0 ==> Insert(s, key).value.1 == s
  {
  }

  /** The append path moves the cursor past the rest of the key and its terminator. */
  lemma AppendBranchAdvancesCursor(s: Arrays, key: string, node: nat, slot: nat, keyIndex: nat)
    requires Valid(s) && keyIndex < |key|
    ensures AppendBranch(s, key, node, slot, keyIndex).tailPosition == s.tailPosition + |key| - keyIndex
  {
    var s2 := SetCheck(SetBase(s, slot, -(s.tailPosition as int)), slot, node);
    assert s2.tailPosition == s.tailPosition;
    assert AppendBranch(s, key, node, slot, keyIndex) == SetTail(s2, key, keyIndex + 1);
  }

  /** Conflict resolution, where it succeeds, appends a run and so moves the cursor on. */
  lemma SplitAdvancesCursor(s1: Arrays, key: string, k: nat, L: nat, T: nat, checkIndex: nat)
    requires Valid(s1) && Split(s1, key, k, L, T, checkIndex).Some?
    ensures Split(s1, key, k, L, T, checkIndex).value.tailPosition > s1.tailPosition
  {
    var tailNext := s1.tail[T + L];
    var keyNext := key[k + L];
    var q := AvailableBaseFor(s1.check, [tailNext, keyNext]).value;
    var s3 := Relocate(s1, checkIndex, q, q + GetCharacterValue(tailNext), T);
    var s4 := s3.(tail := Overwrite(s3.tail, T, |key| - k - L));
    var slot := GetBase(s4, checkIndex) + GetCharacterValue(keyNext);
    assert Split(s1, key, k, L, T, checkIndex) == Some(AppendBranch(s4, key, checkIndex, slot, k + L));
    AppendBranchAdvancesCursor(s4, key, checkIndex, slot, k + L);
  }

  /** `ResolveConflict` moves the cursor on, since placing the common characters keeps it. */
  lemma ResolveAdvancesCursor(s: Arrays, key: string, k: nat, node: nat)
    requires Valid(s) && GetBase(s, node) < 0 && Resolve(s, key, k, node).Some?
    ensures Resolve(s, key, k, node).value.tailPosition > s.tailPosition
  {
    var T := -GetBase(s, node);
    match CommonPrefix(key, k, s.tail, T)
    case Some(L) =>
      var p := PlaceCommon(s, node, key[k..k + L]);
      SplitAdvancesCursor(p.value.0, key, k, L, T, p.value.1);
  }

  /** When `Add` answers true, the tail cursor has strictly increased. */
  lemma InsertTrueAdvancesCursor(s: Arrays, key: string)
    requires Valid(s) && Insert(s, key).Some? && Insert(s, key).value.0
    ensures Insert(s, key).value.1.tailPosition > s.tailPosition
  {
    match Descend(s, key, 0, Root)
    case Vacant(node, slot, keyIndex) =>
      AppendBranchAdvancesCursor(s, key, node, slot, keyIndex);
    case Collision(node, keyIndex) =>
      ResolveAdvancesCursor(s, key, keyIndex, node);
    case Present =>
    case Exhausted =>
    case Crash =>
  }

  // ---------------------------------------------------------------------------------------
  // The append path on any state
  // ---------------------------------------------------------------------------------------

  /** The free slot where the descent stops is the one `base[node] + value(c)` names. */
  lemma {:induction false} DescendVacantSlot(s: Arrays, key: string, i: nat, n: nat)
    requires i <= |key| && Descend(s, key, i, n).Vacant?
    ensures Descend(s, key, i, n).slot ==
              GetBase(s, Descend(s, key, i, n).node) + GetCharacterValue(key[Descend(s, key, i, n).keyIndex])
    decreases |key| - i
  {
    var b := GetBase(s, n);
    var slot := b + GetCharacterValue(key[i]);
    if b >= 0 && slot >= 0 && GetCheck(s, slot) != 0 {
      DescendVacantSlot(s, key, i + 1, slot);
    }
  }

  /**
   * Writing one free slot `slot` (not the root) keeps every walk of a lower-case key: each
   * node it reaches is positive and owned by its parent, so it is never the free slot.
   */
  lemma {:induction false} ReachKept(s: Arrays, r: Arrays, key: string, j: nat, slot: nat)
    requires LowerCase(key) && j <= |key| && Reach(s, key, j).Some?
    requires |r.base| >= |s.base| && |r.check| >= |s.check|
    requires forall i :: 0 <= i < |s.base| && i != slot ==> r.base[i] == s.base[i]
    requires forall i :: 0 <= i < |s.check| && i != slot ==> r.check[i] == s.check[i]
    requires GetCheck(s, slot) == 0 && slot != Root
    ensures Reach(r, key, j) == Reach(s, key, j)
    ensures Reach(s, key, j).value >= 1 && Reach(s, key, j).value != slot
  {
    if j > 0 {
      ReachKept(s, r, key, j - 1, slot);
      var n := Reach(s, key, j - 1).value;
      var b := GetBase(s, n);
      var next := b + GetCharacterValue(key[j - 1]);
      assert r.base[n] == s.base[n];
      assert next != slot;
      assert r.check[next] == s.check[next];
    }
  }

  /**
   * The cells the append path writes: `base[slot]` points at the old cursor, `check[slot]`
   * names the node, every other old cell of `base` and `check` is kept, and the rest of the
   * key is stored as a run at the old cursor.
   */
  lemma AppendCells(s: Arrays, key: string, node: nat, slot: nat, j: nat)
    requires Valid(s) && LowerCase(key) && j + 1 < |key|
    ensures |AppendBranch(s, key, node, slot, j).base| >= |s.base|
    ensures |AppendBranch(s, key, node, slot, j).check| >= |s.check|
    ensures forall i :: 0 <= i < |s.base| && i != slot ==> AppendBranch(s, key, node, slot, j).base[i] == s.base[i]
    ensures forall i :: 0 <= i < |s.check| && i != slot ==> AppendBranch(s, key, node, slot, j).check[i] == s.check[i]
    ensures slot < |AppendBranch(s, key, node, slot, j).check| && AppendBranch(s, key, node, slot, j).check[slot] == node
    ensures GetBase(AppendBranch(s, key, node, slot, j), slot) == -(s.tailPosition as int)
    ensures TailMatches(AppendBranch(s, key, node, slot, j).tail, key, j + 1, s.tailPosition)
  {
    var s1 := SetBase(s, slot, -(s.tailPosition as int));
    var s2 := SetCheck(s1, slot, node);
    SetAtCells(s.base, slot, -(s.tailPosition as int), 0);
    SetAtCells(s.check, slot, node, 0);
    SetTailStoresRun(s2, key, j + 1);
  }

  /**
   * The append path makes the key a member whenever the node it hangs the branch under is
   * really reached by the key's walk with a positive base, and at least one character is
   * left for the tail run.
   */
  lemma AppendMember(s: Arrays, key: string, node: nat, slot: nat, j: nat)
    requires Valid(s) && LowerCase(key)
    requires Descend(s, key, 0, Root) == Vacant(node, slot, j)
    requires j + 1 < |key| && Reach(s, key, j) == Some(node) && GetBase(s, node) > 0
    ensures Member(AppendBranch(s, key, node, slot, j), key)
    ensures Lookup(AppendBranch(s, key, node, slot, j), key, 0, Root) == Some(true)
  {
    AppendCells(s, key, node, slot, j);
    DescendVacantSlot(s, key, 0, Root);
    BranchMember(s, AppendBranch(s, key, node, slot, j), key, node, slot, j);
  }

  /** `AppendMember` for any state whose cells are those the append path writes. */
  lemma BranchMember(s: Arrays, r: Arrays, key: string, node: nat, slot: nat, j: nat)
    requires LowerCase(key) && j + 1 < |key| && Reach(s, key, j) == Some(node) && GetBase(s, node) > 0
    requires slot == GetBase(s, node) + GetCharacterValue(key[j]) && GetCheck(s, slot) == 0
    requires |r.base| >= |s.base| && |r.check| >= |s.check|
    requires forall i :: 0 <= i < |s.base| && i != slot ==> r.base[i] == s.base[i]
    requires forall i :: 0 <= i < |s.check| && i != slot ==> r.check[i] == s.check[i]
    requires slot < |r.check| && r.check[slot] == node
    requires GetBase(r, slot) < 0 && TailMatches(r.tail, key, j + 1, -GetBase(r, slot))
    ensures Member(r, key)
    ensures Lookup(r, key, 0, Root) == Some(true)
  {
    ReachKept(s, r, key, j, slot);
    assert GetBase(r, node) == GetBase(s, node) by {
      assert node < |s.base| && node != slot;
    }
    StepToTail(r, key, j, node, slot);
  }

  /** One more checked transition that lands on a tail run matching the rest of the key. */
  lemma StepToTail(s: Arrays, key: string, j: nat, node: nat, slot: nat)
    requires j + 1 < |key| && Reach(s, key, j) == Some(node) && GetBase(s, node) > 0
    requires slot == GetBase(s, node) + GetCharacterValue(key[j])
    requires slot < |s.check| && s.check[slot] == node
    requires GetBase(s, slot) < 0 && TailMatches(s.tail, key, j + 1, -GetBase(s, slot))
    ensures Member(s, key)
    ensures Lookup(s, key, 0, Root) == Some(true)
  {
    ReachStep(s, key, j, node, slot);
    TailReached(s, key, j + 1, slot);
  }

  /** A walk that reaches a tail run matching the rest of the key finds the key. */
  lemma TailReached(s: Arrays, key: string, j: nat, node: nat)
    requires j < |key| && Reach(s, key, j) == Some(node)
    requires GetBase(s, node) < 0 && TailMatches(s.tail, key, j, -GetBase(s, node))
    ensures Member(s, key)
    ensures Lookup(s, key, 0, Root) == Some(true)
  {
    assert EndsInTail(s, key, j);
    assert Lookup(s, key, j, node) == Some(true);
    LookupTrueFrom(s, key, j, node);
  }

  /** One checked transition more: from `node`, the key's next character leads to `slot`. */
  lemma ReachStep(s: Arrays, key: string, j: nat, node: nat, slot: nat)
    requires j < |key| && Reach(s, key, j) == Some(node) && GetBase(s, node) > 0
    requires slot == GetBase(s, node) + GetCharacterValue(key[j]) && slot < |s.check| && s.check[slot] == node
    ensures Reach(s, key, j + 1) == Some(slot)
  {
    assert key[(j + 1) - 1] == key[j];
  }

  /** Where the lookup walk and `Reach` agree, a true answer further on is a true answer. */
  lemma {:induction false} LookupTrueFrom(s: Arrays, key: string, j: nat, node: nat)
    requires j <= |key| && Reach(s, key, j) == Some(node) && Lookup(s, key, j, node) == Some(true)
    ensures Lookup(s, key, 0, Root) == Some(true)
    decreases j
  {
    if j > 0 {
      var n := Reach(s, key, j - 1).value;
      LookupTrueFrom(s, key, j - 1, n);
    }
  }

  // ---------------------------------------------------------------------------------------
  // A fresh trie
  // ---------------------------------------------------------------------------------------

  /** A lower-case word: the keys the character mapping is meant for. */
  predicate LowerCase(key: string) {
    forall i :: 0 <= i < |key| ==> 'a' <= key[i] <= 'z'
  }

  /** The state after adding `key` to a fresh trie: the first character's slot under the root. */
  ghost function FreshWith(key: string): (r: Arrays)
    requires |key| >= 1 && LowerCase(key)
    ensures Valid(r)
  {
    AppendBranch(Initial(), key, Root, 1 + GetCharacterValue(key[0]), 0)
  }

  /**
   * In `FreshWith(key)` the root keeps base 1, the slot of the first character is owned by
   * the root and points at tail offset 1, where the rest of the key is stored.
   */
  lemma FreshCells(key: string)
    requires |key| >= 2 && LowerCase(key)
    ensures 3 <= 1 + GetCharacterValue(key[0]) <= 28
    ensures GetBase(FreshWith(key), Root) == 1
    ensures 1 + GetCharacterValue(key[0]) < |FreshWith(key).check|
    ensures FreshWith(key).check[1 + GetCharacterValue(key[0])] == Root
    ensures GetBase(FreshWith(key), 1 + GetCharacterValue(key[0])) == -1
    ensures TailMatches(FreshWith(key).tail, key, 1, 1)
  {
    var slot := 1 + GetCharacterValue(key[0]);
    var s0 := Initial();
    var s1 := SetBase(s0, slot, -1);
    var s2 := SetCheck(s1, slot, Root);
    assert FreshWith(key) == SetTail(s2, key, 1);
    SetAtCells(s0.base, slot, -1, 0);
    SetAtCells(s0.check, slot, Root, 0);
    SetTailStoresRun(s2, key, 1);
  }

  /** On a fresh trie the descent stops at the free slot of the first character. */
  lemma FreshInsert(key: string)
    requires |key| >= 2 && LowerCase(key)
    ensures Insert(Initial(), key) == Some((true, FreshWith(key)))
  {
    var slot := 1 + GetCharacterValue(key[0]);
    assert GetCheck(Initial(), slot) == 0;
    assert Descend(Initial(), key, 0, Root) == Vacant(Root, slot, 0);
  }

  /** After the first `Add`, the key is a member. */
  lemma FreshMember(key: string)
    requires |key| >= 2 && LowerCase(key)
    ensures Member(FreshWith(key), key)
  {
    var slot := 1 + GetCharacterValue(key[0]);
    var r := FreshWith(key);
    FreshCells(key);
    assert Reach(r, key, 0) == Some(Root);
    assert Reach(r, key, 1) == Some(slot);
    assert EndsInTail(r, key, 1);
  }

  /** After the first `Add`, lookup of the key answers true without failing. */
  lemma FreshLookup(key: string)
    requires |key| >= 2 && LowerCase(key)
    ensures Lookup(FreshWith(key), key, 0, Root) == Some(true)
  {
    var slot := 1 + GetCharacterValue(key[0]);
    var r := FreshWith(key);
    FreshCells(key);
    assert Lookup(r, key, 1, slot) == Some(true);
  }

  /**
   * A one-letter key is added with a tail run that holds only the terminator: `Add` answers
   * true, yet the key is no member and `ContainsKey` answers false, because its loop runs
   * out of characters before it reads the tail.
   */
  lemma FreshSingleLetter(key: string)
    requires |key| == 1 && LowerCase(key)
    ensures Insert(Initial(), key) == Some((true, FreshWith(key)))
    ensures !Member(FreshWith(key), key)
    ensures Lookup(FreshWith(key), key, 0, Root) == Some(false)
  {
    var slot := 1 + GetCharacterValue(key[0]);
    var s0 := Initial();
    var s1 := SetBase(s0, slot, -1);
    var s2 := SetCheck(s1, slot, Root);
    var r := FreshWith(key);
    assert r == SetTail(s2, key, 1);
    SetAtCells(s0.base, slot, -1, 0);
    SetAtCells(s0.check, slot, Root, 0);
    assert GetCheck(s0, slot) == 0;
    assert Descend(s0, key, 0, Root) == Vacant(Root, slot, 0);
    assert GetBase(r, Root) == 1;
    assert !EndsInTail(r, key, 0);
    assert Lookup(r, key, 1, slot) == Some(false);
  }

  /**
   * After the first `Add`, a second `Add` of the key answers false, and so does adding its
   * first character alone, although that one-character key is not a member.
   */
  lemma FreshReinsert(key: string)
    requires |key| >= 2 && LowerCase(key)
    ensures Insert(FreshWith(key), key) == Some((false, FreshWith(key)))
    ensures Insert(FreshWith(key), key[..1]) == Some((false, FreshWith(key)))
    ensures !Member(FreshWith(key), key[..1])
  {
    var slot := 1 + GetCharacterValue(key[0]);
    var r := FreshWith(key);
    FreshCells(key);
    assert Descend(r, key, 1, slot) == Present;
    assert Descend(r, key, 0, Root) == Present;
    assert Descend(r, key[..1], 1, slot) == Exhausted;
    assert Descend(r, key[..1], 0, Root) == Exhausted;
    assert !EndsInTail(r, key[..1], 0);
  }
}
