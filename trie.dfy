/**
 * The double-array trie of the Forest library: an incrementally built set of strings kept in
 * two integer arrays `base` and `check` and a character array `tail`. The arrays only ever
 * grow, by reallocation to twice their length, so they are held here as sequence fields that
 * the methods reassign. Every method is proved to change the state exactly as the
 * corresponding function of module TrieModel says.
 */
module Trie {
  import opened Wrappers
  import opened CharacterValues
  import opened TrieModel

  class DoubleArrayTrie {
    var base: seq<int>
    var check: seq<int>
    var tail: seq<char>
    var tailPosition: nat

    /** The arrays are non-empty and the cursor is past 0. */
    ghost predicate Valid()
      reads this
    {
      TrieModel.Valid(State())
    }

    /** The trie's state as values. */
    function State(): (s: Arrays)
      reads this
      ensures s.base == base && s.check == check && s.tail == tail && s.tailPosition == tailPosition
    {
      Arrays(base, check, tail, tailPosition)
    }

    /** A new trie: three arrays of 16 cells, the root's base set to 1, the tail cursor at 1. */
    constructor ()
      ensures Valid() && State() == Initial()
    {
      base := seq(InitialLength, i => if i == Root then 1 else 0);
      check := seq(InitialLength, _ => 0);
      tail := seq(InitialLength, _ => Blank);
      tailPosition := 1;
    }

    /** `SetArrays`, kept as a fixture: a new trie whose arrays hold the given contents. */
    constructor WithArrays(bases: seq<int>, checks: seq<int>, tails: seq<char>)
      requires |bases| > 0 && |checks| > 0 && |tails| > 0
      ensures Valid() && State() == Arrays(bases, checks, tails, 1)
    {
      base, check, tail := bases, checks, tails;
      tailPosition := 1;
    }

    // -------------------------------------------------------------------------------------
    // Reading and writing the arrays
    // -------------------------------------------------------------------------------------

    method TryGetBaseValue(index: nat) returns (found: bool, value: int)
      ensures found <==> index < |base|
      ensures value == GetBase(State(), index)
    {
      if index < |base| {
        return true, base[index];
      }
      return false, 0;
    }

    method TryGetCheckValue(index: nat) returns (found: bool, value: int)
      ensures found <==> index < |check|
      ensures value == GetCheck(State(), index)
    {
      if index < |check| {
        return true, check[index];
      }
      return false, 0;
    }

    /** Past the end of the tail the terminator is returned together with `false`. */
    method TryGetTailValue(index: nat) returns (found: bool, value: char)
      ensures found <==> index < |tail|
      ensures value == if found then tail[index] else Terminator
    {
      if index < |tail| {
        return true, tail[index];
      }
      return false, Terminator;
    }

    /** The array is doubled until `index` is inside it. */
    method ResizeBaseIfNecessary(index: nat)
      requires Valid()
      modifies this`base
      ensures Valid() && index < |base|
      ensures base == Grow(old(base), index, 0)
    {
      while index >= |base|
        invariant Valid() && Grow(base, index, 0) == Grow(old(base), index, 0)
        decreases index - |base|
      {
        base := base + Fill(|base|, 0);
      }
    }

    method ResizeCheckIfNecessary(index: nat)
      requires Valid()
      modifies this`check
      ensures Valid() && index < |check|
      ensures check == Grow(old(check), index, 0)
    {
      while index >= |check|
        invariant Valid() && Grow(check, index, 0) == Grow(old(check), index, 0)
        decreases index - |check|
      {
        check := check + Fill(|check|, 0);
      }
    }

    method ResizeTailIfNecessary(index: nat)
      requires Valid()
      modifies this`tail
      ensures Valid() && index < |tail|
      ensures tail == Grow(old(tail), index, Blank)
    {
      while index >= |tail|
        invariant Valid() && Grow(tail, index, Blank) == Grow(old(tail), index, Blank)
        decreases index - |tail|
      {
        tail := tail + Fill(|tail|, Blank);
      }
    }

    method SetBaseValue(index: nat, value: int)
      requires Valid()
      modifies this`base
      ensures Valid() && State() == SetBase(old(State()), index, value)
    {
      ResizeBaseIfNecessary(index);
      base := base[index := value];
      SetAtIsGrow(old(base), index, value, 0);
    }

    method SetCheckValue(index: nat, value: int)
      requires Valid()
      modifies this`check
      ensures Valid() && State() == SetCheck(old(State()), index, value)
    {
      ResizeCheckIfNecessary(index);
      check := check[index := value];
      SetAtIsGrow(old(check), index, value, 0);
    }

    method SetTailValue(index: nat, value: char)
      requires Valid()
      modifies this`tail
      ensures Valid() && tail == SetAt(old(tail), index, value, Blank)
    {
      ResizeTailIfNecessary(index);
      tail := tail[index := value];
      SetAtIsGrow(old(tail), index, value, Blank);
    }

    // -------------------------------------------------------------------------------------
    // Lookup
    // -------------------------------------------------------------------------------------

    /**
     * Whether the rest of `key` from `keyOffset` is stored in the tail at `tailOffset` and
     * followed by the terminator.
     */
    method CheckTailValues(key: string, keyOffset: nat, tailOffset: nat) returns (r: bool)
      ensures r == TailMatches(tail, key, keyOffset, tailOffset)
    {
      ghost var t := tail;
      var keyIndex, tailIndex := keyOffset, tailOffset;
      while keyIndex < |key|
        invariant keyOffset <= keyIndex && tailIndex == tailOffset + keyIndex - keyOffset
        invariant keyOffset < |key| ==> keyIndex <= |key|
        invariant keyOffset < |key| ==> (TailMatches(t, key, keyOffset, tailOffset) <==> TailRun(t, key, keyIndex, tailIndex))
        invariant keyIndex == |key| > keyOffset ==> !TailRun(t, key, keyIndex, tailIndex)
        decreases |key| - keyIndex
      {
        var character := key[keyIndex];
        var found, tailValue := TryGetTailValue(tailIndex);
        if !found || tailValue == Terminator || tailValue != character {
          return false;
        }
        if keyIndex == |key| - 1 {
          found, tailValue := TryGetTailValue(tailIndex + 1);
          if found && tailValue == Terminator {
            return true;
          }
        }
        keyIndex, tailIndex := keyIndex + 1, tailIndex + 1;
      }
      return false;
    }

    /**
     * `ContainsKey`: follows the transitions of the key from the root; where a node points
     * into the tail, the rest of the key is compared there.
     */
    method ContainsKey(key: Option<string>) returns (r: Result<bool>)
      requires key.Some? ==> Lookup(State(), key.value, 0, Root).Some?
      ensures key.None? ==> r == Failure(ArgumentNull)
      ensures key.Some? ==> r == Success(Member(State(), key.value))
    {
      if key.None? {
        return Failure(ArgumentNull);
      }
      var k := key.value;
      ghost var s := State();
      LookupIsMember(s, k);
      var baseIndex: nat := Root;
      for keyIndex := 0 to |k|
        invariant Lookup(s, k, keyIndex, baseIndex) == Lookup(s, k, 0, Root)
      {
        var characterValue := GetCharacterValue(k[keyIndex]);
        var found, baseValue := TryGetBaseValue(baseIndex);
        if found && baseValue < 0 {
          var matched := CheckTailValues(k, keyIndex, -baseValue);
          return Success(matched);
        }
        if !found || baseValue == 0 {
          return Success(false);
        }
        var slot: nat := baseValue + characterValue;
        var foundCheck, checkValue := TryGetCheckValue(slot);
        if !foundCheck || checkValue != baseIndex {
          return Success(false);
        }
        baseIndex := slot;
      }
      return Success(false);
    }

    // -------------------------------------------------------------------------------------
    // Insertion helpers
    // -------------------------------------------------------------------------------------

    /**
     * `SetTailValues(key, k)`: the rest of the key from `k` and a terminator are written at
     * the tail cursor, which then moves past the terminator.
     */
    method SetTailValues(key: string, keyOffset: nat)
      requires Valid() && keyOffset <= |key|
      modifies this`tail, this`tailPosition
      ensures Valid()
      ensures State() == SetTail(old(State()), key, keyOffset)
    {
      ghost var t0 := tail;
      var tailIndex := tailPosition;
      for keyIndex := keyOffset to |key|
        invariant Valid()
        invariant tailPosition == old(tailPosition) && tailIndex == tailPosition + keyIndex - keyOffset
        invariant tail == WriteKey(t0, tailPosition, key, keyOffset, keyIndex)
      {
        SetTailValue(tailIndex, key[keyIndex]);
        tailIndex := tailIndex + 1;
      }
      SetTailValue(tailIndex, Terminator);
      tailPosition := tailPosition + |key| - keyOffset + 1;
    }

    /**
     * `GetCommonPrefixCharacters(key, k, t)`: the characters of the key from `k` on that
     * equal the tail from `t` on, up to the first difference.
     */
    method GetCommonPrefixCharacters(key: string, keyOffset: nat, tailOffset: nat) returns (cs: seq<char>)
      requires CommonPrefix(key, keyOffset, tail, tailOffset).Some?
      ensures |cs| == CommonPrefix(key, keyOffset, tail, tailOffset).value
      ensures keyOffset <= |key| ==> keyOffset + |cs| <= |key| && cs == key[keyOffset..keyOffset + |cs|]
      ensures keyOffset <= |key| ==> SharedPrefix(key, keyOffset, tail, tailOffset, |cs|)
    {
      ghost var total := CommonPrefix(key, keyOffset, tail, tailOffset).value;
      cs := [];
      var keyIndex, tailIndex := keyOffset, tailOffset;
      while keyIndex < |key|
        invariant keyOffset <= keyIndex && tailIndex == tailOffset + keyIndex - keyOffset
        invariant keyIndex <= |key| || keyIndex == keyOffset
        invariant CommonPrefix(key, keyIndex, tail, tailIndex).Some?
        invariant total == CommonPrefix(key, keyIndex, tail, tailIndex).value + |cs|
        invariant keyOffset <= |key| ==> cs == key[keyOffset..keyIndex]
        decreases |key| - keyIndex
      {
        var keyValue := key[keyIndex];
        var tailValue := tail[tailIndex];
        if keyValue != tailValue {
          break;
        }
        cs := cs + [key[keyIndex]];
        keyIndex, tailIndex := keyIndex + 1, tailIndex + 1;
      }
      CommonPrefixMeaning(key, keyOffset, tail, tailOffset);
    }

    /**
     * `GetAvailableBaseValue(cs)`: the least base value from 1 on whose slots for all the
     * characters are free; the slots are read without a range check.
     */
    method GetAvailableBaseValue(characters: seq<char>) returns (b: int)
      requires |characters| > 0 && AvailableBaseFor(check, characters).Some?
      ensures b == AvailableBaseFor(check, characters).value
    {
      var baseValue := 1;
      while true
        invariant AvailableBase(check, characters, baseValue) == AvailableBaseFor(check, characters)
        decreases |check| - baseValue - GetCharacterValue(characters[0])
      {
        var characterIndex := 0;
        while characterIndex < |characters|
          invariant characterIndex < |characters|
          invariant ProbeFrom(check, characters, baseValue, characterIndex) == ProbeFrom(check, characters, baseValue, 0)
        {
          var characterValue := GetCharacterValue(characters[characterIndex]);
          var checkIndex := baseValue + characterValue;
          if check[checkIndex] != 0 {
            break;
          }
          if characterIndex == |characters| - 1 {
            return baseValue;
          }
          characterIndex := characterIndex + 1;
        }
        baseValue := baseValue + 1;
      }
    }

    /**
     * `OverwriteTail(old, new)`: the run at `new` up to its terminator is copied to `old`,
     * then the cells after it up to and including the next terminator become garbage.
     */
    method OverwriteTail(oldOffset: nat, newOffset: nat)
      requires Valid() && OverwriteReturns(tail, oldOffset, newOffset)
      modifies this`tail
      ensures Valid()
      ensures tail == Overwrite(old(tail), oldOffset, newOffset)
    {
      ghost var t0 := tail;
      ghost var copied := NextTerminator(t0, newOffset).value - newOffset;
      ghost var last := NextTerminator(t0, oldOffset + copied + 1).value;
      OverwriteBounds(t0, oldOffset, newOffset, copied, last);
      var terminatorReached := false;
      var oldIndex, newIndex := oldOffset, newOffset;
      while true
        invariant Valid() && |tail| == |t0|
        invariant oldOffset <= oldIndex && newIndex == newOffset + (oldIndex - oldOffset)
        invariant !terminatorReached ==> oldIndex <= oldOffset + copied
        invariant terminatorReached ==> oldOffset + copied < oldIndex <= last
        invariant tail == Overwritten(t0, oldOffset, newOffset, copied, oldIndex)
        invariant oldIndex <= last
        decreases last - oldIndex
      {
        ghost var w := tail;
        if terminatorReached {
          GarbageStep(t0, oldOffset, newOffset, copied, last, oldIndex, w);
          if tail[oldIndex] == Terminator {
            SetTailValue(oldIndex, Garbage);
            assert tail == w[oldIndex := Garbage];
            break;
          }
          SetTailValue(oldIndex, Garbage);
          assert tail == w[oldIndex := Garbage];
        } else {
          var character := tail[newIndex];
          CopyStep(t0, oldOffset, newOffset, copied, oldIndex, w, character);
          SetTailValue(oldIndex, character);
          assert tail == w[oldIndex := character];
          if character == Terminator {
            terminatorReached := true;
          }
        }
        oldIndex, newIndex := oldIndex + 1, newIndex + 1;
      }
    }

    /**
     * `ResolveConflict(key, k, node)`: `node` points at a tail run that differs from the key
     * from `k`. The common characters become transitions, the two differing characters get
     * a fresh base value, the old run is moved up in the tail and the rest of the key is
     * appended to it.
     */
    method ResolveConflict(key: string, keyOffset: nat, baseIndex: nat)
      requires Valid() && GetBase(State(), baseIndex) < 0
      requires Resolve(State(), key, keyOffset, baseIndex).Some?
      modifies this
      ensures Valid()
      ensures State() == Resolve(old(State()), key, keyOffset, baseIndex).value
    {
      ghost var s0 := State();
      var baseValue := GetBase(State(), baseIndex);
      var currentBaseValue: nat := -baseValue;
      var tailOffset := currentBaseValue;
      var commonCharacters := GetCommonPrefixCharacters(key, keyOffset, tailOffset);
      assert State() == s0;
      ghost var p := PlaceCommon(s0, baseIndex, commonCharacters);
      var checkIndex := PlaceCommonCharacters(baseIndex, commonCharacters);
      assert State() == p.value.0 && checkIndex == p.value.1;
      SplitAt(key, keyOffset, |commonCharacters|, currentBaseValue, checkIndex);
    }

    /**
     * The loop of `ResolveConflict` over the common characters: each gets the least free
     * base value, stored in `base[node]`, and its slot is claimed for `node`. Returns the
     * last slot claimed.
     */
    method PlaceCommonCharacters(node: nat, cs: seq<char>) returns (checkIndex: nat)
      requires Valid() && PlaceCommon(State(), node, cs).Some?
      modifies this`base, this`check
      ensures Valid()
      ensures PlaceCommon(old(State()), node, cs) == Some((State(), checkIndex))
    {
      ghost var s0 := State();
      checkIndex := 0;
      for i := 0 to |cs|
        invariant Valid()
        invariant PlaceCommonFrom(State(), node, cs[i..], checkIndex) == PlaceCommon(s0, node, cs)
      {
        ghost var s := State();
        ghost var rest := cs[i..];
        var availableBaseValue := GetAvailableBaseValue([cs[i]]);
        checkIndex := availableBaseValue + GetCharacterValue(cs[i]);
        SetBaseValue(node, availableBaseValue);
        SetCheckValue(checkIndex, node);
        assert State() == SetCheck(SetBase(s, node, availableBaseValue), checkIndex, node);
        assert rest[1..] == cs[i + 1..];
      }
      assert cs[|cs|..] == [];
    }

    /**
     * The rest of `ResolveConflict` after the common characters: the two differing
     * characters get a common base under `checkIndex`, the old run at `oldOffset` moves
     * under the first and the rest of the key goes under the second.
     */
    method SplitAt(key: string, keyOffset: nat, common: nat, oldOffset: nat, checkIndex: nat)
      requires Valid() && Split(State(), key, keyOffset, common, oldOffset, checkIndex).Some?
      modifies this
      ensures Valid()
      ensures State() == Split(old(State()), key, keyOffset, common, oldOffset, checkIndex).value
    {
      ghost var s1 := State();
      var nextTailCharacter := tail[oldOffset + common];
      var nextKeyCharacter := key[keyOffset + common];
      var qq := GetAvailableBaseValue([nextTailCharacter, nextKeyCharacter]);
      var newBase: nat := qq + GetCharacterValue(nextTailCharacter);
      var newOffset := |key| - keyOffset - common;
      RelocateRun(checkIndex, qq, newBase, oldOffset, newOffset);
      AppendUnder(key, keyOffset + common, checkIndex);
    }

    /**
     * The last step of `ResolveConflict`: the slot of `key[keyIndex]` under `node` becomes a
     * child of `node` whose base points at the rest of the key, appended to the tail.
     */
    method AppendUnder(key: string, keyIndex: nat, node: nat)
      requires Valid() && keyIndex < |key| && GetBase(State(), node) + GetCharacterValue(key[keyIndex]) >= 0
      modifies this
      ensures Valid()
      ensures State() == AppendBranch(old(State()), key, node, GetBase(old(State()), node) + GetCharacterValue(key[keyIndex]), keyIndex)
    {
      var b := GetBase(State(), node);
      var t: nat := b + GetCharacterValue(key[keyIndex]);
      AppendBranchAt(key, keyIndex, node, t);
    }

    /**
     * `node` gets base `q`, its child slot `child` takes over the tail pointer of the old run
     * at `oldOffset`, and `OverwriteTail(oldOffset, newOffset)` rewrites that run.
     */
    method RelocateRun(node: nat, q: int, child: nat, oldOffset: nat, newOffset: nat)
      requires Valid() && OverwriteReturns(tail, oldOffset, newOffset)
      modifies this
      ensures Valid()
      ensures State() == Relocate(old(State()), node, q, child, oldOffset).(tail := Overwrite(old(tail), oldOffset, newOffset))
    {
      SetBaseValue(node, q);
      SetBaseValue(child, -(oldOffset as int));
      SetCheckValue(child, node);
      OverwriteTail(oldOffset, newOffset);
    }

    /**
     * The append path of `Add`: the free `slot` becomes a child of `node` whose base points at
     * the tail cursor, where the rest of the key after `keyIndex` is written.
     */
    method AppendBranchAt(key: string, keyIndex: nat, node: nat, slot: nat)
      requires Valid() && keyIndex < |key|
      modifies this
      ensures Valid()
      ensures State() == AppendBranch(old(State()), key, node, slot, keyIndex)
    {
      SetBaseValue(slot, -(tailPosition as int));
      SetCheckValue(slot, node);
      SetTailValues(key, keyIndex + 1);
    }

    /**
     * The descent loop of `Add`: follows the transitions of the key from the root until a
     * tail run, a free slot or the end of the key, and reports where it stopped. `Crash`
     * stands for the negative slot index at which the C# code throws.
     */
    method Locate(key: string) returns (w: Walk)
      ensures w == Descend(State(), key, 0, Root)
    {
      ghost var s := State();
      var baseIndex: nat := Root;
      for keyIndex := 0 to |key|
        invariant Descend(s, key, keyIndex, baseIndex) == Descend(s, key, 0, Root)
      {
        var baseValue := GetBase(State(), baseIndex);
        if baseValue < 0 {
          var matched := CheckTailValues(key, keyIndex, -baseValue);
          if matched {
            return Present;
          }
          return Collision(baseIndex, keyIndex);
        }
        var characterValue := GetCharacterValue(key[keyIndex]);
        if baseValue + characterValue < 0 {
          return Crash;
        }
        var slot: nat := baseValue + characterValue;
        var checkValue := GetCheck(State(), slot);
        if checkValue == 0 {
          return Vacant(baseIndex, slot, keyIndex);
        }
        baseIndex := slot;
      }
      return Exhausted;
    }

    /**
     * `Add(key)`: true when the key was inserted, false when it was already present (or
     * ends inside the transitions of another key); a missing key is an argument error.
     */
    method Add(key: Option<string>) returns (r: Result<bool>)
      requires Valid()
      requires key.Some? ==> Insert(State(), key.value).Some?
      modifies this
      ensures Valid()
      ensures key.None? ==> r == Failure(ArgumentNull) && State() == old(State())
      ensures key.Some? ==>
        r == Success(Insert(old(State()), key.value).value.0) && State() == Insert(old(State()), key.value).value.1
    {
      if key.None? {
        return Failure(ArgumentNull);
      }
      var k := key.value;
      var w := Locate(k);
      match w
      case Crash =>
        assert false;
      case Present =>
        return Success(false);
      case Exhausted =>
        return Success(false);
      case Vacant(node, slot, keyIndex) =>
        AppendBranchAt(k, keyIndex, node, slot);
        return Success(true);
      case Collision(node, keyIndex) =>
        ResolveConflict(k, keyIndex, node);
        return Success(true);
    }
  }

  /**
   * A copying step of `OverwriteTail`: the cell read at `new + j` has not been written yet,
   * it is the terminator only at the end of the run, and writing it at `old + j` extends the
   * overwritten prefix by one cell.
   */
  lemma CopyStep(t0: seq<char>, oldOffset: nat, newOffset: nat, copied: nat, oldIndex: nat, w: seq<char>, c: char)
    requires newOffset + copied < |t0| && t0[newOffset + copied] == Terminator
    requires forall i :: newOffset <= i < newOffset + copied ==> t0[i] != Terminator
    requires newOffset >= oldOffset || newOffset + copied < oldOffset
    requires oldOffset <= oldIndex <= oldOffset + copied && oldIndex < |t0|
    requires w == Overwritten(t0, oldOffset, newOffset, copied, oldIndex)
    requires c == w[newOffset + (oldIndex - oldOffset)]
    ensures c == Terminator <==> oldIndex == oldOffset + copied
    ensures w[oldIndex := c] == Overwritten(t0, oldOffset, newOffset, copied, oldIndex + 1)
  {
    OverwrittenCells(t0, oldOffset, newOffset, copied, oldIndex);
    assert c == t0[newOffset + (oldIndex - oldOffset)];
  }

  /**
   * A garbage step of `OverwriteTail`: the cell at `oldIndex` still holds its old value, it
   * is the terminator only at `last`, and turning it into garbage extends the prefix by one.
   */
  lemma GarbageStep(t0: seq<char>, oldOffset: nat, newOffset: nat, copied: nat, last: nat, oldIndex: nat, w: seq<char>)
    requires oldOffset + copied < oldIndex <= last < |t0| && t0[last] == Terminator
    requires forall i :: oldOffset + copied < i < last ==> t0[i] != Terminator
    requires w == Overwritten(t0, oldOffset, newOffset, copied, oldIndex)
    ensures w[oldIndex] == Terminator <==> oldIndex == last
    ensures w[oldIndex := Garbage] == Overwritten(t0, oldOffset, newOffset, copied, oldIndex + 1)
  {
    OverwrittenCells(t0, oldOffset, newOffset, copied, oldIndex);
    assert w[oldIndex] == t0[oldIndex];
  }
}
