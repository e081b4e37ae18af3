/**
 * The engine containers and handles of the dumper: the array with a live
 * count and a capacity, the wide string built over it, the enum stored in
 * one byte, and the null-guarded interface and pointer handles.
 */
module Structs {
  import opened Types

  // ------------------------------------------------------------ TArray spec

  /** Removal by moving the last element into the gap, on the live elements. */
  function RemoveSwap<T>(s: seq<T>, index: nat): (r: seq<T>)
    requires index < |s|
    ensures |r| == |s| - 1
  {
    s[index := s[|s| - 1]][..|s| - 1]
  }

  /** The last element fills the gap; every other remaining slot keeps its element. */
  lemma RemoveSwapAt<T>(s: seq<T>, index: nat)
    requires index < |s|
    ensures var r := RemoveSwap(s, index);
      && (forall j :: 0 <= j < |r| && j != index ==> r[j] == s[j])
      && (index < |r| ==> r[index] == s[|s| - 1])
  {
  }

  /** The removal takes away exactly the element at `index`. */
  lemma RemoveSwapMultiset<T>(s: seq<T>, index: nat)
    requires index < |s|
    ensures multiset(RemoveSwap(s, index)) == multiset(s) - multiset{s[index]}
  {
    var n := |s|;
    var r := RemoveSwap(s, index);
    assert s == s[..index] + [s[index]] + s[index + 1..];
    if index < n - 1 {
      assert r == s[..index] + [s[n - 1]] + s[index + 1..n - 1];
      assert s[index + 1..] == s[index + 1..n - 1] + [s[n - 1]];
    } else {
      assert r == s[..index];
    }
  }

  /**
   * `RemoveAt(Index, Length)` as written: `RemoveSingle` at `Index`,
   * `Index + 1`, ... until `Length` calls have been made or one fails.
   */
  function RemoveAtSeq<T>(s: seq<T>, index: nat, length: int): seq<T>
    decreases |s| - index + 1
  {
    if length == 0 || index >= |s| then s
    else RemoveAtSeq(RemoveSwap(s, index), index + 1, length - 1)
  }

  /**
   * How many elements `RemoveAt` removes: each step shrinks the array and
   * advances the index, so a gap of `gap` live elements from the index on
   * allows `ceil(gap / 2)` steps; a negative `length` never stops the loop.
   */
  function RemoveAtSteps(gap: int, length: int): (k: nat)
    ensures k <= (if gap <= 0 then 0 else gap)
    ensures length >= 0 ==> k <= length
  {
    var available := if gap <= 0 then 0 else (gap + 1) / 2;
    if length < 0 || available <= length then available else length
  }

  /** A step that removes one element leaves a gap two shorter and one call fewer. */
  lemma RemoveAtStepsNext(gap: int, length: int)
    requires gap >= 1 && length != 0
    ensures RemoveAtSteps(gap, length) == 1 + RemoveAtSteps(gap - 2, length - 1)
  {
  }

  /**
   * `RemoveAt` removes exactly `RemoveAtSteps` elements, never grows the
   * array, keeps the elements before `index`, and takes away exactly the
   * original elements at `index .. index + RemoveAtSteps - 1`.
   */
  lemma RemoveAtEffect<T>(s: seq<T>, index: nat, length: int)
    ensures var r := RemoveAtSeq(s, index, length);
      && |r| == |s| - RemoveAtSteps(|s| - index, length)
      && (length >= 0 ==> |s| - |r| <= length)
      && |r| <= |s|
      && (forall j :: 0 <= j < index && j < |r| ==> r[j] == s[j])
      && multiset(r) <= multiset(s)
      && (index <= |s| ==>
            multiset(r) == multiset(s) - multiset(s[index..index + RemoveAtSteps(|s| - index, length)]))
  {
    RemoveAtLength(s, index, length);
    RemoveAtKeepsPrefix(s, index, length);
    RemoveAtMultiset(s, index, length);
  }

  lemma {:induction false} RemoveAtLength<T>(s: seq<T>, index: nat, length: int)
    ensures |RemoveAtSeq(s, index, length)| == |s| - RemoveAtSteps(|s| - index, length)
    decreases |s| - index + 1
  {
    if length != 0 && index < |s| {
      RemoveAtLength(RemoveSwap(s, index), index + 1, length - 1);
    }
  }

  lemma {:induction false} RemoveAtKeepsPrefix<T>(s: seq<T>, index: nat, length: int)
    ensures var r := RemoveAtSeq(s, index, length);
      forall j :: 0 <= j < index && j < |r| ==> r[j] == s[j]
    decreases |s| - index + 1
  {
    if length != 0 && index < |s| {
      RemoveSwapAt(s, index);
      RemoveAtKeepsPrefix(RemoveSwap(s, index), index + 1, length - 1);
    }
  }

  /** The elements `RemoveAt` takes away: the first `RemoveAtSteps` of them from `index` on. */
  function RemovedRange<T>(s: seq<T>, index: nat, length: int): seq<T>
    requires index <= |s|
  {
    s[index..index + RemoveAtSteps(|s| - index, length)]
  }

  /**
   * `RemoveAt` takes away exactly the original elements at
   * `index .. index + RemoveAtSteps(|s| - index, length) - 1`, and so
   * only elements that were there.
   */
  lemma RemoveAtMultiset<T>(s: seq<T>, index: nat, length: int)
    ensures multiset(RemoveAtSeq(s, index, length)) <= multiset(s)
    ensures index <= |s| ==>
      multiset(RemoveAtSeq(s, index, length))
        == multiset(s) - multiset(s[index..index + RemoveAtSteps(|s| - index, length)])
  {
    if index <= |s| {
      RemoveAtAdds(s, index, length);
      AddThenSubtract(multiset(RemoveAtSeq(s, index, length)), multiset(RemovedRange(s, index, length)), multiset(s));
    }
  }

  /** What is left and what went make up what was there. */
  lemma {:induction false} RemoveAtAdds<T>(s: seq<T>, index: nat, length: int)
    requires index <= |s|
    ensures multiset(RemoveAtSeq(s, index, length)) + multiset(RemovedRange(s, index, length)) == multiset(s)
    decreases |s| - index
  {
    if length == 0 || index == |s| {
      RemoveAtNoStep(s, index, length);
    } else if index + 1 == |s| {
      RemoveAtLastStep(s, index, length);
    } else {
      RemoveAtAdds(RemoveSwap(s, index), index + 1, length - 1);
      RemoveAtAddsStep(s, index, length);
    }
  }

  /** The inductive step of `RemoveAtAdds`: from the rest of the loop to the whole of it. */
  lemma RemoveAtAddsStep<T>(s: seq<T>, index: nat, length: int)
    requires index + 1 < |s| && length != 0
    requires var s1 := RemoveSwap(s, index);
      multiset(RemoveAtSeq(s1, index + 1, length - 1)) + multiset(RemovedRange(s1, index + 1, length - 1))
        == multiset(s1)
    ensures multiset(RemoveAtSeq(s, index, length)) + multiset(RemovedRange(s, index, length)) == multiset(s)
  {
    var s1 := RemoveSwap(s, index);
    RemoveSwapMultiset(s, index);
    RemovedRangeStep(s, index, length);
    AddInTurn(multiset(RemoveAtSeq(s1, index + 1, length - 1)), multiset(RemovedRange(s1, index + 1, length - 1)),
      multiset(s1), s[index], multiset(s));
  }

  /** With no call left, or no element from `index` on, nothing is removed. */
  lemma RemoveAtNoStep<T>(s: seq<T>, index: nat, length: int)
    requires index <= |s| && (length == 0 || index == |s|)
    ensures multiset(RemoveAtSeq(s, index, length)) + multiset(RemovedRange(s, index, length)) == multiset(s)
  {
    assert RemovedRange(s, index, length) == [];
  }

  /** The step that removes the last live element takes only that one. */
  lemma RemoveAtLastStep<T>(s: seq<T>, index: nat, length: int)
    requires index + 1 == |s| && length != 0
    ensures multiset(RemoveAtSeq(s, index, length)) + multiset(RemovedRange(s, index, length)) == multiset(s)
  {
    RemoveSwapMultiset(s, index);
    assert RemovedRange(s, index, length) == [s[index]];
  }

  /** Positions above the removed one and below the last keep their elements. */
  lemma RemoveSwapKeepsAbove<T>(s: seq<T>, index: nat, lo: nat, hi: nat)
    requires index < lo <= hi < |s|
    ensures RemoveSwap(s, index)[lo..hi] == s[lo..hi]
  {
    RemoveSwapAt(s, index);
  }

  /**
   * After the first removal, the rest of the range sits unmoved just above
   * `index`: the range is the removed element followed by the rest's range.
   */
  lemma RemovedRangeStep<T>(s: seq<T>, index: nat, length: int)
    requires index + 1 < |s| && length != 0
    ensures multiset(RemovedRange(s, index, length))
      == multiset{s[index]} + multiset(RemovedRange(RemoveSwap(s, index), index + 1, length - 1))
  {
    var s1 := RemoveSwap(s, index);
    var k := RemoveAtSteps(|s| - index, length);
    RemoveAtStepsNext(|s| - index, length);
    var hi := index + k;
    assert RemovedRange(s, index, length) == s[index..hi];
    assert RemovedRange(s1, index + 1, length - 1) == s1[index + 1..hi];
    RemoveSwapKeepsAbove(s, index, index + 1, hi);
    SliceFirst(s, index, hi);
  }

  /** A non-empty slice is its first element and the slice after it. */
  lemma SliceFirst<T>(s: seq<T>, lo: nat, hi: nat)
    requires lo < hi <= |s|
    ensures multiset(s[lo..hi]) == multiset{s[lo]} + multiset(s[lo + 1..hi])
  {
    assert s[lo..hi] == [s[lo]] + s[lo + 1..hi];
  }

  /** Adding `b` and then `x` is adding `x` with `b`. */
  lemma AddInTurn<T>(a: multiset<T>, b: multiset<T>, c: multiset<T>, x: T, d: multiset<T>)
    requires a + b == c && c == d - multiset{x} && x in d
    ensures a + (multiset{x} + b) == d
  {
    forall y ensures (a + (multiset{x} + b))[y] == d[y] {
      assert (a + b)[y] == c[y] == (d - multiset{x})[y];
      if y == x {
        assert d[y] >= 1;
      }
    }
  }

  /** A part of a sum is the sum less the other part. */
  lemma AddThenSubtract<T>(a: multiset<T>, b: multiset<T>, c: multiset<T>)
    requires a + b == c
    ensures a == c - b && a <= c
  {
  }

  /**
   * The range removal `RemoveAt` is meant to perform: take away the
   * elements at `lo .. hi - 1`, highest position first, so that every
   * element moved in from the end lands at or above the part still to go.
   */
  function RemoveDescending<T>(s: seq<T>, lo: nat, hi: nat): seq<T>
    requires lo <= hi <= |s|
    decreases hi - lo
  {
    if hi == lo then s else RemoveDescending(RemoveSwap(s, hi - 1), lo, hi - 1)
  }

  /** The corrected `RemoveAt(Index, Length)`: removes `Length` elements from `Index`, or all to the end. */
  function RemoveRange<T>(s: seq<T>, index: nat, length: nat): (r: seq<T>)
    requires index <= |s|
    ensures var hi := if index + length <= |s| then index + length else |s|;
      && |r| == |s| - (hi - index)
      && multiset(r) == multiset(s) - multiset(s[index..hi])
      && forall j :: 0 <= j < index ==> r[j] == s[j]
  {
    var hi := if index + length <= |s| then index + length else |s|;
    RemoveDescendingEffect(s, index, hi);
    RemoveDescending(s, index, hi)
  }

  /** A slice is its shorter slice plus its last element. */
  lemma SliceLast<T>(s: seq<T>, lo: nat, hi: nat)
    requires lo < hi <= |s|
    ensures multiset(s[lo..hi]) == multiset{s[hi - 1]} + multiset(s[lo..hi - 1])
  {
    assert s[lo..hi] == s[lo..hi - 1] + [s[hi - 1]];
    assert multiset(s[lo..hi]) == multiset(s[lo..hi - 1]) + multiset{s[hi - 1]};
  }

  lemma {:induction false} RemoveDescendingEffect<T>(s: seq<T>, lo: nat, hi: nat)
    requires lo <= hi <= |s|
    ensures var r := RemoveDescending(s, lo, hi);
      && |r| == |s| - (hi - lo)
      && multiset(r) == multiset(s) - multiset(s[lo..hi])
      && forall j :: 0 <= j < lo ==> r[j] == s[j]
  {
    RemoveDescendingShape(s, lo, hi);
    RemoveDescendingMultiset(s, lo, hi);
  }

  lemma {:induction false} RemoveDescendingShape<T>(s: seq<T>, lo: nat, hi: nat)
    requires lo <= hi <= |s|
    ensures |RemoveDescending(s, lo, hi)| == |s| - (hi - lo)
    ensures forall j :: 0 <= j < lo ==> RemoveDescending(s, lo, hi)[j] == s[j]
    decreases hi - lo
  {
    if hi > lo {
      RemoveDescendingShape(RemoveSwap(s, hi - 1), lo, hi - 1);
    }
  }

  /** Positions below the removed one keep their elements. */
  lemma RemoveSwapKeepsBelow<T>(s: seq<T>, index: nat, lo: nat)
    requires lo <= index < |s|
    ensures RemoveSwap(s, index)[lo..index] == s[lo..index]
  {
  }

  /** Hence the part below the removed position keeps its multiset. */
  lemma RemoveSwapKeepsBelowMultiset<T>(s: seq<T>, index: nat, lo: nat)
    requires lo <= index < |s|
    ensures multiset(RemoveSwap(s, index)[lo..index]) == multiset(s[lo..index])
  {
    RemoveSwapKeepsBelow(s, index, lo);
  }

  lemma RemoveDescendingMultiset<T>(s: seq<T>, lo: nat, hi: nat)
    requires lo <= hi <= |s|
    ensures multiset(RemoveDescending(s, lo, hi)) == multiset(s) - multiset(s[lo..hi])
  {
    RemoveDescendingAdds(s, lo, hi);
    AddThenSubtract(multiset(RemoveDescending(s, lo, hi)), multiset(s[lo..hi]), multiset(s));
  }

  /** What is left and the removed range make up the whole sequence again. */
  lemma {:induction false} RemoveDescendingAdds<T>(s: seq<T>, lo: nat, hi: nat)
    requires lo <= hi <= |s|
    ensures multiset(RemoveDescending(s, lo, hi)) + multiset(s[lo..hi]) == multiset(s)
    decreases hi - lo
  {
    if hi == lo {
      RemoveDescendingNone(s, lo);
    } else {
      var s1 := RemoveSwap(s, hi - 1);
      RemoveDescendingAdds(s1, lo, hi - 1);
      RemoveDescendingNext(s, lo, hi, RemoveDescending(s1, lo, hi - 1));
    }
  }

  /** Removing the empty range changes nothing. */
  lemma RemoveDescendingNone<T>(s: seq<T>, lo: nat)
    requires lo <= |s|
    ensures multiset(RemoveDescending(s, lo, lo)) + multiset(s[lo..lo]) == multiset(s)
  {
    assert s[lo..lo] == [];
  }

  /**
   * The inductive step of `RemoveDescendingAdds`: `r` is what is left
   * once the range one shorter is removed after the element at `hi - 1`,
   * below which `s` and the array after that removal agree.
   */
  lemma RemoveDescendingNext<T>(s: seq<T>, lo: nat, hi: nat, r: seq<T>)
    requires lo < hi <= |s|
    requires var s1 := RemoveSwap(s, hi - 1);
      multiset(r) + multiset(s1[lo..hi - 1]) == multiset(s1)
    ensures multiset(r) + multiset(s[lo..hi]) == multiset(s)
  {
    var s1 := RemoveSwap(s, hi - 1);
    RemoveSwapMultiset(s, hi - 1);
    RemoveDescendingSlice(s, lo, hi);
    AddInTurn(multiset(r), multiset(s1[lo..hi - 1]), multiset(s1), s[hi - 1], multiset(s));
  }

  /** The range is its top element and the part below, which removing that element leaves in place. */
  lemma RemoveDescendingSlice<T>(s: seq<T>, lo: nat, hi: nat)
    requires lo < hi <= |s|
    ensures multiset(s[lo..hi]) == multiset{s[hi - 1]} + multiset(RemoveSwap(s, hi - 1)[lo..hi - 1])
  {
    RemoveSwapKeepsBelowMultiset(s, hi - 1, lo);
    SliceLast(s, lo, hi);
  }

  /**
   * Where the two differ: asked to remove both elements of a two-element
   * array from index 0, `RemoveAt` leaves the second one behind.
   */
  lemma RemoveAtStopsShort<T>(x: T, y: T)
    ensures RemoveAtSeq([x, y], 0, 2) == [y]
    ensures RemoveRange([x, y], 0, 2) == []
  {
  }

  /**
   * Where the two agree: a range no longer than half the tail from `Index`
   * is removed in full; here `b` and `c` go and `e` fills the first gap.
   */
  lemma RemoveAtWithinHalf<T>(a: T, b: T, c: T, d: T, e: T)
    ensures RemoveAtSeq([a, b, c, d, e], 1, 2) == [a, e, d]
  {
    assert RemoveSwap([a, b, c, d, e], 1) == [a, e, c, d];
    assert RemoveSwap([a, e, c, d], 2) == [a, e, d];
    assert RemoveAtSeq([a, e, c, d], 2, 1) == RemoveAtSeq([a, e, d], 3, 0) == [a, e, d];
  }

  // ---------------------------------------------------------------- TArray

  /** An engine array: `Count` live elements in `Data`, room for `Max`. */
  class TArray<T> {
    var Data: array?<T>
    var Count: int32
    var Max: int32

    ghost predicate Valid()
      reads this
    {
      && 0 <= Count <= Max
      && (Data == null ==> Max == 0)
      && (Data != null ==> Max as int <= Data.Length)
    }

    /** The live elements. */
    ghost function Contents(): seq<T>
      reads this, Data
      requires Valid()
    {
      if Data == null then [] else Data[..Count]
    }

    constructor ()
      ensures Valid()
      ensures Data == null && Count == 0 && Max == 0
      ensures Num() == 0 && Slack() == 0 && Contents() == []
    {
      Data := null;
      Count, Max := 0, 0;
    }

    function Num(): int32
      reads this
    {
      Count
    }

    /** As written: only an upper bound, so every negative index passes. */
    function IsValidIndex(i: int32): bool
      reads this
    {
      i < Num()
    }

    /** Room left before the array would have to grow. */
    function Slack(): (r: int)
      reads this
      ensures Valid() ==> 0 <= r <= Max
      ensures r == 0 <==> Count == Max
    {
      Max - Count
    }

    /** The index check with the lower bound the element access needs. */
    function IsValidIndexChecked(i: int32): (ok: bool)
      reads this
      ensures ok <==> IsValidIndex(i) && 0 <= i
      ensures Valid() && ok ==> Data != null && i as int < Data.Length
    {
      0 <= i < Num()
    }

    method RemoveSingle(Index: int32) returns (removed: bool)
      requires Valid() && 0 <= Index
      modifies this`Count, Data
      ensures Valid() && Data == old(Data) && Max == old(Max)
      ensures removed <==> Index < old(Count)
      ensures !removed ==> Count == old(Count) && (Data == null || Data[..] == old(Data[..]))
      ensures removed ==> Count == old(Count) - 1
      ensures removed ==> Data != null && Data[..] == old(Data[..])[Index := old(Data[Count - 1])]
      ensures Contents() == if removed then RemoveSwap(old(Contents()), Index as nat) else old(Contents())
    {
      if Index < Count {
        if Index != Count - 1 {
          Data[Index] := Data[Count - 1];
        }
        Count := Count - 1;
        return true;
      }
      return false;
    }

    method RemoveAt(Index: int32, Length: int32)
      requires Valid() && 0 <= Index
      modifies this`Count, Data
      ensures Valid() && Data == old(Data) && Max == old(Max)
      ensures Contents() == RemoveAtSeq(old(Contents()), Index as nat, Length as int)
      ensures Count <= old(Count)
      ensures Length >= 0 ==> old(Count) - Count <= Length
      ensures Data != null ==> forall j :: Count <= j < Data.Length ==> Data[j] == old(Data[j])
    {
      var index: nat := Index as nat;
      var length: int := Length as int;
      var removed := true;
      while length != 0
        invariant Valid() && Data == old(Data) && Max == old(Max)
        invariant Count <= old(Count)
        invariant Index as int <= index < 0x8000_0000
        invariant Data != null ==> forall j :: 0 <= j < Data.Length && (j < Index as int || j >= index || j >= Count as int) ==> Data[j] == old(Data[j])
        invariant RemoveAtSeq(Contents(), index, length) == RemoveAtSeq(old(Contents()), Index as nat, Length as int)
        decreases Count as int - index + 1
      {
        removed := RemoveSingle(index as int32);
        if !removed {
          break;
        }
        index := index + 1;
        length := length - 1;
      }
      RemoveAtLength(old(Contents()), Index as nat, Length as int);
    }
  }

  /** The lower-bound gap: on any well-formed array, index -1 is accepted. */
  lemma IsValidIndexAcceptsNegative<T>(a: TArray<T>)
    requires a.Valid()
    ensures a.IsValidIndex(-1) && !a.IsValidIndexChecked(-1)
  {
  }

  // --------------------------------------------------------------- FString

  /**
   * `wcslen` of a terminated wide string: the position of its first NUL,
   * counted in 16-bit code units, so a character outside the Basic
   * Multilingual Plane (a surrogate pair) counts twice.
   */
  function Wcslen(s: seq<wchar>): (n: nat)
    requires 0 in s
    ensures n < |s| && s[n] == 0
    ensures forall i :: 0 <= i < n ==> s[i] != 0
  {
    if s[0] == 0 then 0 else 1 + Wcslen(s[1..])
  }

  /** A wide string over the array layout: `Data` is null or points at the characters. */
  datatype FString = FString(data: Option<seq<wchar>>, count: int32, max: int32)

  /** The default string: the array's null data and zero counts. */
  const EmptyFString: FString := FString(None, 0, 0)

  /**
   * `FString(other)`: a non-empty string counts its code units plus the
   * terminator and points at `other`; an empty one stays the null string.
   */
  function FromWideString(other: seq<wchar>): (f: FString)
    requires 0 in other && Wcslen(other) < 0x7FFF_FFFF
    ensures other[0] == 0 ==> f == EmptyFString
    ensures other[0] != 0 ==>
      && f.data == Some(other)
      && f.count == f.max
      && 2 <= f.count as int <= |other|
      && other[f.count - 1] == 0
      && forall i :: 0 <= i < f.count as int - 1 ==> other[i] != 0
  {
    var n: int32 := if other[0] != 0 then (Wcslen(other) + 1) as int32 else 0;
    if n != 0 then FString(Some(other), n, n) else FString(None, n, n)
  }

  predicate IsValid(f: FString) {
    f.data.Some?
  }

  /** A string built from code units is valid exactly when it is not empty. */
  lemma FromWideStringValid(other: seq<wchar>)
    requires 0 in other && Wcslen(other) < 0x7FFF_FFFF
    ensures IsValid(FromWideString(other)) <==> other[0] != 0
    ensures IsValid(FromWideString(other)) ==> FromWideString(other).count as int == Wcslen(other) + 1
  {
  }
  /** `L"\U0001F600"` is the surrogate pair D83D DE00, so the string counts three units with its terminator. */
  lemma FromWideStringSurrogatePair()
    ensures Wcslen([0xD83D, 0xDE00, 0]) == 2
    ensures FromWideString([0xD83D, 0xDE00, 0]) == FString(Some([0xD83D, 0xDE00, 0]), 3, 3)
  {
  }


  // ----------------------------------------------------------- TEnumAsByte

  /** An enum value stored in a single byte. */
  datatype TEnumAsByte = TEnumAsByte(value: byte)

  /** Construction from the enum or an `int32_t`: the value is cut down to its low byte. */
  function FromInt32(v: int32): (e: TEnumAsByte) {
    TEnumAsByte((v as int % 0x100) as byte)
  }

  function FromByte(b: byte): (e: TEnumAsByte) {
    TEnumAsByte(b)
  }

  function GetValue(e: TEnumAsByte): byte {
    e.value
  }

  /** A byte comes back unchanged; a wider value comes back modulo 256. */
  lemma EnumAsByteValue(b: byte, v: int32)
    ensures GetValue(FromByte(b)) == b
    ensures GetValue(FromInt32(v)) as int == v as int % 0x100
    ensures GetValue(FromInt32(v)) as int == v as int <==> 0 <= v < 0x100
    ensures v as int + 0x100 < 0x8000_0000 ==> FromInt32((v as int + 0x100) as int32) == FromInt32(v)
    ensures FromInt32(b as int32) == FromByte(b)
  {
  }

  // ------------------------------------------------------ script interfaces

  /** An object pointer and the interface it implements; 0 is null. */
  datatype FScriptInterface = FScriptInterface(objectPointer: uint64, interfacePointer: uint64)

  function GetObject(si: FScriptInterface): uint64 {
    si.objectPointer
  }

  /** The interface pointer, hidden behind a null object. */
  function GetInterface(si: FScriptInterface): uint64 {
    if si.objectPointer != 0 then si.interfacePointer else 0
  }

  /** `TScriptInterface`'s conversion to bool. */
  function IsBound(si: FScriptInterface): bool {
    GetInterface(si) != 0
  }

  /** The interface is null whenever the object is, and a handle is bound only if both are set. */
  lemma InterfaceNullGuard(si: FScriptInterface)
    ensures GetObject(si) == 0 ==> GetInterface(si) == 0
    ensures GetObject(si) != 0 ==> GetInterface(si) == si.interfacePointer
    ensures IsBound(si) <==> si.objectPointer != 0 && si.interfacePointer != 0
  {
  }

  // ------------------------------------------------------- pair and pointer

  datatype TPair<K, V> = TPair(first: K, second: V) {
    function Key(): K { first }
    function Value(): V { second }
  }

  lemma PairAccessors<K, V>(k: K, v: V)
    ensures TPair(k, v).Key() == k && TPair(k, v).Value() == v
  {
  }

  /** A single-owner pointer; 0 is null, which the default one holds. */
  datatype TUniquePtr = TUniquePtr(ptr: uint64) {
    predicate IsValid() { ptr != 0 }
    predicate AsBool() { IsValid() }
    predicate Not() { !IsValid() }
  }

  const NullUniquePtr: TUniquePtr := TUniquePtr(0)

  lemma UniquePtrConversions(p: TUniquePtr)
    ensures p.AsBool() <==> p.ptr != 0
    ensures p.Not() <==> !p.AsBool()
    ensures !NullUniquePtr.IsValid()
  {
  }
}
