/**
 * The state of a double-array trie as values, and the effect of every trie operation on
 * that state as a function. The class in module Trie keeps its state in sequence fields
 * and proves each of its methods equal to the function here; the lemmas in TrieProperties
 * are about these functions.
 *
 * A function returns `None` exactly where the C# code would fail at run time (an
 * unchecked array read out of range, a negative index) or would never return.
 */
module TrieModel {
  import opened Wrappers
  import opened CharacterValues

  /** The character that marks a tail cell whose contents were moved elsewhere. */
  const Garbage: char := '?'

  /** `default(char)`: the contents of a fresh tail cell. */
  const Blank: char := '\0'

  /** The length of the three arrays of a new trie. */
  const InitialLength: nat := 16

  /** The root node. */
  const Root: nat := 1

  /**
   * The four fields of a trie: `base`, `check`, `tail` and the cursor `tailPosition` at
   * which the next suffix run is appended.
   */
  datatype Arrays = Arrays(base: seq<int>, check: seq<int>, tail: seq<char>, tailPosition: nat)

  /** Every array is non-empty (so doubling makes progress) and the tail cursor is past cell 0. */
  predicate Valid(s: Arrays) {
    |s.base| > 0 && |s.check| > 0 && |s.tail| > 0 && s.tailPosition >= 1
  }

  /** The state built by the constructor: arrays of 16 cells, `base[1] = 1`, cursor at 1. */
  function Initial(): (s: Arrays)
    ensures Valid(s)
    ensures |s.base| == |s.check| == |s.tail| == InitialLength
    ensures s.base[Root] == 1 && s.tailPosition == 1
    ensures forall i :: 0 <= i < InitialLength && i != Root ==> s.base[i] == 0
    ensures forall i :: 0 <= i < InitialLength ==> s.check[i] == 0 && s.tail[i] == Blank
  {
    Arrays(seq(InitialLength, i => if i == Root then 1 else 0),
           seq(InitialLength, _ => 0),
           seq(InitialLength, _ => Blank),
           1)
  }

  // ---------------------------------------------------------------------------------------
  // Growth by doubling
  // ---------------------------------------------------------------------------------------

  function Pow2(k: nat): (p: nat)
    ensures p >= 1
  {
    if k == 0 then 1 else 2 * Pow2(k - 1)
  }

  /** The length an array of length `len` has after being doubled until `index` fits. */
  function GrownLength(len: nat, index: nat): (n: nat)
    requires len > 0
    ensures n >= len && n > index
    decreases if index < len then 0 else index - len + 1
  {
    if index < len then len else GrownLength(2 * len, index)
  }

  /** How many times an array of length `len` is doubled before `index` fits. */
  function Doublings(len: nat, index: nat): nat
    requires len > 0
    decreases if index < len then 0 else index - len + 1
  {
    if index < len then 0 else 1 + Doublings(2 * len, index)
  }

  /**
   * The grown length holds `index`, is the old length times a power of two, and is the
   * smallest such length: it is the old length, or half of it is still too short for `index`.
   */
  lemma {:induction false} GrownLengthIsLeastDoubling(len: nat, index: nat)
    requires len > 0
    ensures GrownLength(len, index) > index
    ensures GrownLength(len, index) == len * Pow2(Doublings(len, index))
    ensures GrownLength(len, index) == len || GrownLength(len, index) <= 2 * index
    decreases if index < len then 0 else index - len + 1
  {
    if index >= len {
      GrownLengthIsLeastDoubling(2 * len, index);
      assert 2 * len * Pow2(Doublings(2 * len, index)) == len * Pow2(Doublings(len, index));
    }
  }

  /** `n` copies of `x`. */
  function Fill<T>(n: nat, x: T): (r: seq<T>)
    ensures |r| == n
  {
    if n == 0 then [] else Fill(n - 1, x) + [x]
  }

  lemma {:induction false} FillCells<T>(n: nat, x: T)
    ensures forall i :: 0 <= i < n ==> Fill(n, x)[i] == x
  {
    if n > 0 {
      FillCells(n - 1, x);
    }
  }

  /**
   * The contents of an array after `Resize*IfNecessary(index)`: doubled by `Array.Resize`,
   * the new cells holding `fill`, until `index` fits.
   */
  function Grow<T>(s: seq<T>, index: nat, fill: T): (r: seq<T>)
    requires |s| > 0
    ensures |s| <= |r| && index < |r|
    decreases if index < |s| then 0 else index - |s| + 1
  {
    if index < |s| then s else Grow(s + Fill(|s|, fill), index, fill)
  }

  /** Growing keeps every old cell and fills every new one. */
  lemma {:induction false} GrowCells<T>(s: seq<T>, index: nat, fill: T)
    requires |s| > 0
    ensures |Grow(s, index, fill)| == GrownLength(|s|, index)
    ensures forall i :: 0 <= i < |Grow(s, index, fill)| ==>
              Grow(s, index, fill)[i] == if i < |s| then s[i] else fill
    decreases if index < |s| then 0 else index - |s| + 1
  {
    if index >= |s| {
      FillCells(|s|, fill);
      GrowCells(s + Fill(|s|, fill), index, fill);
    }
  }

  /**
   * A write through `Set*Value`: the array is doubled (new cells hold `fill`) until `index`
   * fits, then cell `index` is overwritten.
   */
  function SetAt<T>(s: seq<T>, index: nat, x: T, fill: T): (r: seq<T>)
    requires |s| > 0
    ensures |s| <= |r| && index < |r|
    ensures index < |s| ==> r == s[index := x]
    decreases if index < |s| then 0 else index - |s| + 1
  {
    if index < |s| then s[index := x] else SetAt(s + Fill(|s|, fill), index, x, fill)
  }

  /** A write is the growth followed by the update of one cell. */
  lemma {:induction false} SetAtIsGrow<T>(s: seq<T>, index: nat, x: T, fill: T)
    requires |s| > 0
    ensures SetAt(s, index, x, fill) == Grow(s, index, fill)[index := x]
    decreases if index < |s| then 0 else index - |s| + 1
  {
    if index >= |s| {
      SetAtIsGrow(s + Fill(|s|, fill), index, x, fill);
    }
  }

  /**
   * `r` is `s` grown by doubling until `index` fits, with `x` at `index`, every other old
   * cell kept and every new cell holding `fill`.
   */
  ghost predicate WrittenAt<T>(s: seq<T>, index: nat, x: T, fill: T, r: seq<T>)
    requires |s| > 0
  {
    && |r| == GrownLength(|s|, index)
    && forall i :: 0 <= i < |r| ==> r[i] == if i == index then x else if i < |s| then s[i] else fill
  }

  /** `SetAt` cell by cell. */
  lemma SetAtCells<T>(s: seq<T>, index: nat, x: T, fill: T)
    requires |s| > 0
    ensures WrittenAt(s, index, x, fill, SetAt(s, index, x, fill))
  {
    SetAtIsGrow(s, index, x, fill);
    GrowCells(s, index, fill);
  }

  /** `GetBaseValue`: 0 past the end of the array. */
  function GetBase(s: Arrays, index: nat): int {
    if index < |s.base| then s.base[index] else 0
  }

  /** `GetCheckValue`: 0 past the end of the array. */
  function GetCheck(s: Arrays, index: nat): int {
    if index < |s.check| then s.check[index] else 0
  }

  ghost function SetBase(s: Arrays, index: nat, x: int): (r: Arrays)
    requires Valid(s)
    ensures Valid(r) && r.check == s.check && r.tail == s.tail && r.tailPosition == s.tailPosition
  {
    s.(base := SetAt(s.base, index, x, 0))
  }

  ghost function SetCheck(s: Arrays, index: nat, x: int): (r: Arrays)
    requires Valid(s)
    ensures Valid(r) && r.base == s.base && r.tail == s.tail && r.tailPosition == s.tailPosition
  {
    s.(check := SetAt(s.check, index, x, 0))
  }

  // ---------------------------------------------------------------------------------------
  // The tail
  // ---------------------------------------------------------------------------------------

  /**
   * The tail after the characters `key[k..j]` are written one by one through
   * `SetTailValue` from offset `p` on.
   */
  function WriteKey(t: seq<char>, p: nat, key: string, k: nat, j: nat): (r: seq<char>)
    requires |t| > 0 && k <= j <= |key|
    ensures |r| >= |t|
    decreases j - k
  {
    if j == k then t else SetAt(WriteKey(t, p, key, k, j - 1), p + (j - 1 - k), key[j - 1], Blank)
  }

  /**
   * The length and the cells of `WriteKey(t, p, key, k, j)`: grown until the last character
   * fits, holding `key[k..j]` at `p..p+j-k`, its other old cells kept and its new cells blank.
   */
  ghost predicate KeyWritten(t: seq<char>, p: nat, key: string, k: nat, j: nat, r: seq<char>)
    requires |t| > 0 && k <= j <= |key|
  {
    && |r| == (if j == k then |t| else GrownLength(|t|, p + j - k - 1))
    && forall i :: 0 <= i < |r| ==>
         r[i] == if p <= i < p + j - k then key[k + i - p] else if i < |t| then t[i] else Blank
  }

  /** Growing to fit `a`, then to fit `b >= a`, is growing to fit `b`. */
  lemma {:induction false} GrownLengthTwice(n: nat, a: nat, b: nat)
    requires n > 0 && a <= b
    ensures GrownLength(GrownLength(n, a), b) == GrownLength(n, b)
    decreases if a < n then 0 else a - n + 1
  {
    if a >= n {
      GrownLengthTwice(2 * n, a, b);
    }
  }

  /** `WriteKey` cell by cell. */
  lemma {:induction false} WriteKeyCells(t: seq<char>, p: nat, key: string, k: nat, j: nat)
    requires |t| > 0 && k <= j <= |key|
    ensures KeyWritten(t, p, key, k, j, WriteKey(t, p, key, k, j))
    decreases j - k
  {
    if j > k {
      var w := WriteKey(t, p, key, k, j - 1);
      WriteKeyCells(t, p, key, k, j - 1);
      SetAtCells(w, p + (j - 1 - k), key[j - 1], Blank);
      WriteKeyStep(t, p, key, k, j, w, WriteKey(t, p, key, k, j));
    }
  }

  /** One more character written after `key[k..j-1]` gives `key[k..j]` written. */
  lemma WriteKeyStep(t: seq<char>, p: nat, key: string, k: nat, j: nat, w: seq<char>, r: seq<char>)
    requires |t| > 0 && k < j <= |key| && |w| >= |t|
    requires KeyWritten(t, p, key, k, j - 1, w)
    requires WrittenAt(w, p + (j - 1 - k), key[j - 1], Blank, r)
    ensures KeyWritten(t, p, key, k, j, r)
  {
    if j - 1 > k {
      GrownLengthTwice(|t|, p + j - k - 2, p + j - k - 1);
    }
    forall i | 0 <= i < |r|
      ensures r[i] == if p <= i < p + j - k then key[k + i - p] else if i < |t| then t[i] else Blank
    {
      if i == p + (j - 1 - k) {
        assert r[i] == key[j - 1];
      } else if i < |w| {
        assert r[i] == w[i];
      } else {
        assert r[i] == Blank && |t| <= i;
      }
    }
  }

  /**
   * `SetTailValues(key, k)`: the rest of the key from `k`, then the terminator, written at
   * the cursor; the cursor moves past the terminator.
   */
  ghost function SetTail(s: Arrays, key: string, k: nat): (r: Arrays)
    requires Valid(s) && k <= |key|
    ensures Valid(r) && r.base == s.base && r.check == s.check
  {
    s.(tail := SetAt(WriteKey(s.tail, s.tailPosition, key, k, |key|), s.tailPosition + |key| - k, Terminator, Blank),
       tailPosition := s.tailPosition + |key| - k + 1)
  }

  /**
   * The condition under which `CheckTailValues(key, k, t)` returns true: there is a rest of
   * the key from `k`, and it is stored at `t` followed by a terminator (`TailMatchesCells`).
   */
  predicate TailMatches(tail: seq<char>, key: string, k: nat, t: nat) {
    k < |key| && TailRun(tail, key, k, t)
  }

  /**
   * The comparison of `CheckTailValues` from `key[k]` and `tail[t]` on: each tail cell exists,
   * is not the terminator and equals the key character, and a terminator follows the key.
   */
  predicate TailRun(tail: seq<char>, key: string, k: nat, t: nat)
    decreases |key| - k
  {
    if k >= |key| then t < |tail| && tail[t] == Terminator
    else t < |tail| && tail[t] != Terminator && tail[t] == key[k] && TailRun(tail, key, k + 1, t + 1)
  }

  /** `TailRun` cell by cell. */
  lemma {:induction false} TailRunCells(tail: seq<char>, key: string, k: nat, t: nat)
    requires k <= |key|
    ensures TailRun(tail, key, k, t) <==>
      && t + |key| - k < |tail|
      && (forall i :: k <= i < |key| ==> tail[t + i - k] == key[i])
      && (forall i :: k <= i < |key| ==> key[i] != Terminator)
      && tail[t + |key| - k] == Terminator
    decreases |key| - k
  {
    if k < |key| {
      TailRunCells(tail, key, k + 1, t + 1);
      if t + |key| - k < |tail| && (forall i :: k <= i < |key| ==> tail[t + i - k] == key[i])
         && (forall i :: k <= i < |key| ==> key[i] != Terminator) {
        assert tail[t + k - k] == key[k];
      }
    }
  }

  /** A tail run matches exactly when the rest of the key, then a terminator, is stored at `t`. */
  lemma TailMatchesCells(tail: seq<char>, key: string, k: nat, t: nat)
    ensures TailMatches(tail, key, k, t) <==>
      && k < |key|
      && t + |key| - k < |tail|
      && (forall i :: k <= i < |key| ==> tail[t + i - k] == key[i])
      && (forall i :: k <= i < |key| ==> key[i] != Terminator)
      && tail[t + |key| - k] == Terminator
  {
    if k < |key| {
      TailRunCells(tail, key, k, t);
    }
  }

  // ---------------------------------------------------------------------------------------
  // Lookup
  // ---------------------------------------------------------------------------------------

  /**
   * The node that lookup reaches after following the transitions of the first `j`
   * characters of `key`, or None when one of them is missing: the node has no positive
   * base, or the slot `base + value` is out of range or owned by another node.
   */
  function Reach(s: Arrays, key: string, j: nat): Option<nat>
    requires j <= |key|
  {
    if j == 0 then Some(Root)
    else match Reach(s, key, j - 1)
      case None => None
      case Some(n) =>
        var b := GetBase(s, n);
        var slot := b + GetCharacterValue(key[j - 1]);
        if b > 0 && 0 <= slot < |s.check| && s.check[slot] == n then Some(slot) else None
  }

  /** Once the walk has stopped it stays stopped: no later transition is followed. */
  lemma {:induction false} ReachStops(s: Arrays, key: string, j: nat, j': nat)
    requires j <= j' <= |key| && Reach(s, key, j).None?
    ensures Reach(s, key, j').None?
    decreases j' - j
  {
    if j' > j {
      ReachStops(s, key, j, j' - 1);
    }
  }

  /** After `j` transitions the walk reaches a node whose tail holds the rest of `key`. */
  predicate EndsInTail(s: Arrays, key: string, j: nat)
    requires j <= |key|
  {
    var r := Reach(s, key, j);
    r.Some? && GetBase(s, r.value) < 0 && TailMatches(s.tail, key, j, -GetBase(s, r.value))
  }

  /** A key is a member when its walk ends in a tail run that matches the rest of the key. */
  predicate Member(s: Arrays, key: string) {
    exists j :: 0 <= j < |key| && EndsInTail(s, key, j)
  }

  /**
   * Lookup is deterministic: where the walk stops at the `j`-th character, membership is
   * decided by the tail run reached there.
   */
  lemma MemberStops(s: Arrays, key: string, j: nat)
    requires j < |key| && Reach(s, key, j + 1).None?
    requires forall j' :: 0 <= j' < j ==> !EndsInTail(s, key, j')
    ensures Member(s, key) <==> EndsInTail(s, key, j)
  {
    forall j' | j < j' < |key|
      ensures !EndsInTail(s, key, j')
    {
      ReachStops(s, key, j + 1, j');
    }
  }

  /**
   * `ContainsKey` from the `j`-th character at `node`, as the C# loop runs it: Some(found),
   * or None where it indexes `check` below 0 and throws.
   */
  function Lookup(s: Arrays, key: string, j: nat, node: nat): Option<bool>
    requires j <= |key|
    decreases |key| - j
  {
    if j == |key| then Some(false)
    else
      var b := GetBase(s, node);
      if b < 0 then Some(TailMatches(s.tail, key, j, -b))
      else if b == 0 then Some(false)
      else
        var slot := b + GetCharacterValue(key[j]);
        if slot < 0 then None
        else if slot >= |s.check| || s.check[slot] != node then Some(false)
        else Lookup(s, key, j + 1, slot)
  }

  /** From any point the walk reaches, the loop's answer is membership. */
  lemma {:induction false} LookupFrom(s: Arrays, key: string, j: nat, node: nat)
    requires j <= |key| && Reach(s, key, j) == Some(node)
    requires forall j' :: 0 <= j' < j ==> !EndsInTail(s, key, j')
    requires Lookup(s, key, j, node).Some?
    ensures Lookup(s, key, j, node).value == Member(s, key)
    decreases |key| - j
  {
    if j < |key| {
      var b := GetBase(s, node);
      var slot := b + GetCharacterValue(key[j]);
      if b > 0 && 0 <= slot < |s.check| && s.check[slot] == node {
        LookupFrom(s, key, j + 1, slot);
      } else {
        MemberStops(s, key, j);
      }
    }
  }

  /** `ContainsKey`'s loop decides exactly membership, wherever it does not throw. */
  lemma LookupIsMember(s: Arrays, key: string)
    requires Lookup(s, key, 0, Root).Some?
    ensures Lookup(s, key, 0, Root).value == Member(s, key)
  {
    LookupFrom(s, key, 0, Root);
  }


  // ---------------------------------------------------------------------------------------
  // The search for a free base value
  // ---------------------------------------------------------------------------------------

  /** What one candidate base value yields in `GetAvailableBaseValue`. */
  datatype Probe = OutOfRange | Taken | Available

  /**
   * The inner loop of `GetAvailableBaseValue` from the `i`-th character on: the slots
   * `b + GetCharacterValue(cs[i])`, ... are read unchecked, in order, until one is taken.
   */
  function ProbeFrom(check: seq<int>, cs: seq<char>, b: int, i: nat): (r: Probe)
    requires i < |cs|
    ensures r != OutOfRange ==> 0 <= b + GetCharacterValue(cs[i]) < |check|
    decreases |cs| - i
  {
    var slot := b + GetCharacterValue(cs[i]);
    if slot < 0 || slot >= |check| then OutOfRange
    else if check[slot] != 0 then Taken
    else if i == |cs| - 1 then Available
    else ProbeFrom(check, cs, b, i + 1)
  }

  /** A probe finds the base value available exactly when all its remaining slots are free. */
  lemma {:induction false} ProbeFromAvailable(check: seq<int>, cs: seq<char>, b: int, i: nat)
    requires i < |cs|
    ensures ProbeFrom(check, cs, b, i) == Available <==>
      forall m :: i <= m < |cs| ==>
        0 <= b + GetCharacterValue(cs[m]) < |check| && check[b + GetCharacterValue(cs[m])] == 0
    decreases |cs| - i
  {
    var slot := b + GetCharacterValue(cs[i]);
    if 0 <= slot < |check| && check[slot] == 0 && i < |cs| - 1 {
      ProbeFromAvailable(check, cs, b, i + 1);
    }
  }

  /**
   * The outer loop of `GetAvailableBaseValue` from candidate `b` on: the first candidate
   * whose slots are all free, or None when a probe reads outside `check` first.
   */
  function AvailableBase(check: seq<int>, cs: seq<char>, b: int): (r: Option<int>)
    requires |cs| > 0
    ensures r.Some? ==> r.value >= b && ProbeFrom(check, cs, r.value, 0) == Available
    decreases |check| - b - GetCharacterValue(cs[0])
  {
    match ProbeFrom(check, cs, b, 0)
    case OutOfRange => None
    case Available => Some(b)
    case Taken => AvailableBase(check, cs, b + 1)
  }

  /** `GetAvailableBaseValue(cs)`: the search starts at base value 1. */
  function AvailableBaseFor(check: seq<int>, cs: seq<char>): Option<int>
    requires |cs| > 0
  {
    AvailableBase(check, cs, 1)
  }


  // ---------------------------------------------------------------------------------------
  // Insertion
  // ---------------------------------------------------------------------------------------

  /** Where the descent of `Add` stops. */
  datatype Walk =
    | Present                                        // the rest of the key matched a tail run
    | Exhausted                                      // the key ran out inside transitions
    | Vacant(node: nat, slot: nat, keyIndex: nat)    // check[slot] == 0: append a branch
    | Collision(node: nat, keyIndex: nat)            // a tail run that does not match
    | Crash                                          // a negative slot index

  /**
   * The descent of `Add` from `node` at `keyIndex`. Unlike lookup it follows every slot
   * whose `check` is non-zero, whichever node owns it.
   */
  function Descend(s: Arrays, key: string, keyIndex: nat, node: nat): (w: Walk)
    requires keyIndex <= |key|
    ensures w.Collision? ==> w.keyIndex < |key| && GetBase(s, w.node) < 0
    ensures w.Vacant? ==> w.keyIndex < |key| && GetCheck(s, w.slot) == 0 && GetBase(s, w.node) >= 0
    decreases |key| - keyIndex
  {
    if keyIndex == |key| then Exhausted
    else
      var b := GetBase(s, node);
      if b < 0 then
        if TailMatches(s.tail, key, keyIndex, -b) then Present else Collision(node, keyIndex)
      else
        var slot := b + GetCharacterValue(key[keyIndex]);
        if slot < 0 then Crash
        else if GetCheck(s, slot) == 0 then Vacant(node, slot, keyIndex)
        else Descend(s, key, keyIndex + 1, slot)
  }

  /** The append path of `Add`: a fresh branch at `slot` pointing at a new tail run. */
  ghost function AppendBranch(s: Arrays, key: string, node: nat, slot: nat, keyIndex: nat): (r: Arrays)
    requires Valid(s) && keyIndex < |key|
    ensures Valid(r)
  {
    SetTail(SetCheck(SetBase(s, slot, -(s.tailPosition as int)), slot, node), key, keyIndex + 1)
  }

  /**
   * `GetCommonPrefixCharacters(key, k, t)`: how many characters of the key from `k` equal
   * the tail from `t`; None when the unchecked tail read runs past the end first.
   */
  function CommonPrefix(key: string, k: nat, tail: seq<char>, t: nat): (r: Option<nat>)
    ensures r.Some? ==> k + r.value <= |key| || (r.value == 0 && k > |key|)
    decreases |key| - k
  {
    if k >= |key| then Some(0)
    else if t >= |tail| then None
    else if key[k] != tail[t] then Some(0)
    else match CommonPrefix(key, k + 1, tail, t + 1)
      case None => None
      case Some(n) => Some(n + 1)
  }

  /**
   * `n` characters of the key from `k` equal the tail from `t`, and unless the key runs out
   * there, the next character differs from the next tail cell.
   */
  predicate SharedPrefix(key: string, k: nat, tail: seq<char>, t: nat, n: nat) {
    && k + n <= |key|
    && (n > 0 ==> t + n <= |tail| && key[k..k + n] == tail[t..t + n])
    && (k + n < |key| ==> t + n < |tail| && tail[t + n] != key[k + n])
  }

  /** What the count of `CommonPrefix` means: the longest shared run from `k` and `t`. */
  lemma {:induction false} CommonPrefixMeaning(key: string, k: nat, tail: seq<char>, t: nat)
    ensures CommonPrefix(key, k, tail, t).Some? && k <= |key| ==>
              SharedPrefix(key, k, tail, t, CommonPrefix(key, k, tail, t).value)
    decreases |key| - k
  {
    if k < |key| && t < |tail| && key[k] == tail[t] && CommonPrefix(key, k + 1, tail, t + 1).Some? {
      CommonPrefixMeaning(key, k + 1, tail, t + 1);
      var n := CommonPrefix(key, k + 1, tail, t + 1).value;
      assert key[k..k + n + 1] == [key[k]] + key[k + 1..k + 1 + n];
      assert tail[t..t + n + 1] == [tail[t]] + tail[t + 1..t + 1 + n];
    }
  }

  /**
   * The loop of `ResolveConflict` over the common characters: each gets the least free base
   * value, which is stored in `base[node]` (always the same node), and its slot is claimed
   * for `node`. Yields the state and the last slot claimed (`checkIndex`).
   */
  ghost function PlaceCommon(s: Arrays, node: nat, cs: seq<char>): (r: Option<(Arrays, nat)>)
    requires Valid(s)
    ensures r.Some? ==> Valid(r.value.0) && r.value.0.tail == s.tail && r.value.0.tailPosition == s.tailPosition
  {
    PlaceCommonFrom(s, node, cs, 0)
  }

  /** `PlaceCommon` from the loop state: `checkIndex` is the slot claimed last. */
  ghost function PlaceCommonFrom(s: Arrays, node: nat, cs: seq<char>, checkIndex: nat): (r: Option<(Arrays, nat)>)
    requires Valid(s)
    ensures r.Some? ==> Valid(r.value.0) && r.value.0.tail == s.tail && r.value.0.tailPosition == s.tailPosition
    decreases |cs|
  {
    if cs == [] then Some((s, checkIndex))
    else match AvailableBaseFor(s.check, [cs[0]])
      case None => None
      case Some(b) =>
        assert 0 <= b + GetCharacterValue(cs[0]);
        var slot := b + GetCharacterValue(cs[0]);
        PlaceCommonFrom(SetCheck(SetBase(s, node, b), slot, node), node, cs[1..], slot)
  }

  /** The first terminator in `tail` at or after `from`. */
  function NextTerminator(tail: seq<char>, from: nat): (r: Option<nat>)
    ensures r.Some? ==> from <= r.value < |tail| && tail[r.value] == Terminator
    decreases |tail| - from
  {
    if from >= |tail| then None
    else if tail[from] == Terminator then Some(from)
    else NextTerminator(tail, from + 1)
  }

  /** `NextTerminator` finds the first terminator: none lies between `from` and its result. */
  lemma {:induction false} NextTerminatorIsFirst(tail: seq<char>, from: nat)
    ensures NextTerminator(tail, from).Some? ==>
      forall i :: from <= i < NextTerminator(tail, from).value ==> tail[i] != Terminator
    ensures NextTerminator(tail, from).None? ==> forall i :: from <= i < |tail| ==> tail[i] != Terminator
    decreases |tail| - from
  {
    if from < |tail| && tail[from] != Terminator {
      NextTerminatorIsFirst(tail, from + 1);
    }
  }

  /**
   * `OverwriteTail(old, new)` returns, and reads and writes only inside the tail, exactly when
   * the run at `new` ends in a terminator that it reads before overwriting it, and a terminator
   * follows the copied run's end in the old run. Otherwise the C# loop reads out of range or
   * keeps doubling the tail forever.
   */
  predicate OverwriteReturns(tail: seq<char>, oldOffset: nat, newOffset: nat) {
    match NextTerminator(tail, newOffset)
    case None => false
    case Some(e) => (newOffset >= oldOffset || e < oldOffset)
                    && NextTerminator(tail, oldOffset + (e - newOffset) + 1).Some?
  }

  /**
   * What `OverwriteReturns` guarantees, spelled out: the run at `new` has `copied` characters
   * before its terminator, it is read before it is overwritten, and the first terminator after
   * `old + copied` is at `last`, inside the tail.
   */
  lemma OverwriteBounds(tail: seq<char>, oldOffset: nat, newOffset: nat, copied: nat, last: nat)
    requires OverwriteReturns(tail, oldOffset, newOffset)
    requires copied == NextTerminator(tail, newOffset).value - newOffset
    requires last == NextTerminator(tail, oldOffset + copied + 1).value
    ensures newOffset + copied < |tail| && tail[newOffset + copied] == Terminator
    ensures forall i :: newOffset <= i < newOffset + copied ==> tail[i] != Terminator
    ensures newOffset >= oldOffset || newOffset + copied < oldOffset
    ensures oldOffset + copied < last < |tail| && tail[last] == Terminator
    ensures forall i :: oldOffset + copied < i < last ==> tail[i] != Terminator
  {
    NextTerminatorIsFirst(tail, newOffset);
    NextTerminatorIsFirst(tail, oldOffset + copied + 1);
  }

  /**
   * The tail after `OverwriteTail(old, new)`: the run at `new` up to and including its
   * terminator is copied to `old`, and the rest of the old run, up to and including its own
   * terminator, becomes garbage (`OverwriteCells`). Defined by the cell-by-cell writes.
   */
  function Overwrite(tail: seq<char>, oldOffset: nat, newOffset: nat): (r: seq<char>)
    requires OverwriteReturns(tail, oldOffset, newOffset)
    ensures |r| == |tail|
  {
    var copied := NextTerminator(tail, newOffset).value - newOffset;
    var last := NextTerminator(tail, oldOffset + copied + 1).value;
    Overwritten(tail, oldOffset, newOffset, copied, last + 1)
  }

  /**
   * Cell `i` of the tail while `OverwriteTail` is at `oldIndex`: the cells before it are
   * copied from the new run up to `copied` and garbage after that.
   */
  function OverwrittenUpTo(t0: seq<char>, oldOffset: nat, newOffset: nat, copied: nat, oldIndex: nat, i: nat): char
    requires i < |t0|
  {
    if oldOffset <= i < oldIndex && i <= oldOffset + copied then
      (if newOffset + (i - oldOffset) < |t0| then t0[newOffset + (i - oldOffset)] else Blank)
    else if oldOffset + copied < i < oldIndex then Garbage
    else t0[i]
  }

  /** The whole tail while `OverwriteTail` is at `oldIndex`: one cell written per step. */
  function Overwritten(t0: seq<char>, oldOffset: nat, newOffset: nat, copied: nat, oldIndex: nat): (r: seq<char>)
    ensures |r| == |t0|
    decreases oldIndex
  {
    if oldIndex <= oldOffset || oldIndex > |t0| then t0
    else Overwritten(t0, oldOffset, newOffset, copied, oldIndex - 1)[oldIndex - 1 :=
      OverwrittenUpTo(t0, oldOffset, newOffset, copied, oldIndex, oldIndex - 1)]
  }

  /** Cell by cell, `Overwritten` is `OverwrittenUpTo`. */
  lemma {:induction false} OverwrittenCells(t0: seq<char>, oldOffset: nat, newOffset: nat, copied: nat, oldIndex: nat)
    requires oldIndex <= |t0|
    ensures forall i :: 0 <= i < |t0| ==>
      Overwritten(t0, oldOffset, newOffset, copied, oldIndex)[i] == OverwrittenUpTo(t0, oldOffset, newOffset, copied, oldIndex, i)
    decreases oldIndex
  {
    if oldIndex > oldOffset {
      OverwrittenCells(t0, oldOffset, newOffset, copied, oldIndex - 1);
    }
  }

  /**
   * `Overwrite` cell by cell: the old run's first `copied + 1` cells hold the new run and its
   * terminator, the cells after them up to the old run's terminator hold garbage, and every
   * other cell is unchanged.
   */
  lemma OverwriteCells(tail: seq<char>, oldOffset: nat, newOffset: nat, copied: nat, last: nat)
    requires OverwriteReturns(tail, oldOffset, newOffset)
    requires copied == NextTerminator(tail, newOffset).value - newOffset
    requires last == NextTerminator(tail, oldOffset + copied + 1).value
    ensures forall i :: 0 <= i < |tail| ==>
              Overwrite(tail, oldOffset, newOffset)[i] ==
                if oldOffset <= i <= oldOffset + copied then tail[newOffset + (i - oldOffset)]
                else if oldOffset + copied < i <= last then Garbage
                else tail[i]
  {
    OverwriteBounds(tail, oldOffset, newOffset, copied, last);
    OverwrittenCells(tail, oldOffset, newOffset, copied, last + 1);
  }


  /**
   * `ResolveConflict(key, k, node)` as written, where `node` holds a tail pointer `-T` whose
   * run does not match the key from `k`. None where the C# code fails: an unchecked read past
   * `tail` or `check`, the key being read past its end (the key is a prefix of the stored run),
   * a negative index, or an `OverwriteTail` that does not return.
   */
  ghost function Resolve(s: Arrays, key: string, k: nat, node: nat): (r: Option<Arrays>)
    requires Valid(s) && GetBase(s, node) < 0
    ensures r.Some? ==> Valid(r.value)
  {
    var T := -GetBase(s, node);
    match CommonPrefix(key, k, s.tail, T)
    case None => None
    case Some(L) =>
      if k + L > |key| then None
      else
        var p := PlaceCommon(s, node, key[k..k + L]);
        if p.None? then None else Split(p.value.0, key, k, L, T, p.value.1)
  }

  /**
   * The rest of `ResolveConflict` once the `L` common characters are placed and
   * `checkIndex` is the last slot claimed: the next tail character and the next key
   * character get a common free base, the old run (at `T`) hangs under the first and is
   * overwritten by the run at offset `|key| - k - L`, and a new run holding the rest of the
   * key hangs under the second.
   */
  ghost function Split(s1: Arrays, key: string, k: nat, L: nat, T: nat, checkIndex: nat): (r: Option<Arrays>)
    requires Valid(s1)
    ensures r.Some? ==> Valid(r.value)
  {
    if T + L >= |s1.tail| || k + L >= |key| then None
    else
      var tailNext := s1.tail[T + L];
      var keyNext := key[k + L];
      match AvailableBaseFor(s1.check, [tailNext, keyNext])
      case None => None
      case Some(q) =>
        assert 0 <= q + GetCharacterValue(tailNext);
        var s3 := Relocate(s1, checkIndex, q, q + GetCharacterValue(tailNext), T);
        var newOffset := |key| - k - L;
        if !OverwriteReturns(s3.tail, T, newOffset) then None
        else
          var s4 := s3.(tail := Overwrite(s3.tail, T, newOffset));
          var slot := GetBase(s4, checkIndex) + GetCharacterValue(keyNext);
          if slot < 0 then None
          else Some(AppendBranch(s4, key, checkIndex, slot, k + L))
  }

  /**
   * The first half of the split: `node` gets base `q`, and its child slot `child` takes over
   * the tail pointer `-T` of the old run.
   */
  ghost function Relocate(s: Arrays, node: nat, q: int, child: nat, T: nat): (r: Arrays)
    requires Valid(s)
    ensures Valid(r) && r.tail == s.tail && r.tailPosition == s.tailPosition
  {
    SetCheck(SetBase(SetBase(s, node, q), child, -(T as int)), child, node)
  }

  /**
   * `Add(key)` as written: the result and the new state, or None where the C# code fails.
   * `false` comes from a matching tail run or from a key that ends inside transitions.
   */
  ghost function Insert(s: Arrays, key: string): Option<(bool, Arrays)>
    requires Valid(s)
  {
    match Descend(s, key, 0, Root)
    case Crash => None
    case Present => Some((false, s))
    case Exhausted => Some((false, s))
    case Vacant(node, slot, keyIndex) => Some((true, AppendBranch(s, key, node, slot, keyIndex)))
    case Collision(node, keyIndex) =>
      match Resolve(s, key, keyIndex, node)
      case None => None
      case Some(r) => Some((true, r))
  }
}
