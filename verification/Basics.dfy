/** Machine integers, results and sequence helpers shared by every module. */
module Basics {

  type u64 = x: int | 0 <= x < 0x1_0000_0000_0000_0000
  type i64 = x: int | -0x8000_0000_0000_0000 <= x < 0x8000_0000_0000_0000

  const TWO_63: int := 0x8000_0000_0000_0000
  const TWO_64: int := 0x1_0000_0000_0000_0000

  /** The cast `v as i64`: the same 64 bits read as two's complement. */
  function AsI64(v: u64): i64 {
    if v < TWO_63 then v else v - TWO_64
  }

  /** The cast `n as u64`. */
  function AsU64(n: i64): u64 {
    if n >= 0 then n else n + TWO_64
  }

  datatype Option<+T> = None | Some(value: T)

  /** SQLSTATE-tagged failures; the message text is not modelled. */
  datatype Error = NotFound(what: string) | Other(code: string)

  datatype Result<+T> = Ok(value: T) | Err(error: Error)

  /** Index of the first occurrence of `x`. */
  function Position<T(==)>(s: seq<T>, x: T): (r: Option<nat>)
    ensures r.Some? ==> r.value < |s| && s[r.value] == x && x !in s[..r.value]
    ensures r.None? <==> x !in s
  {
    if s == [] then None
    else if s[0] == x then Some(0)
    else
      match Position(s[1..], x)
      case None => None
      case Some(k) => Some(k + 1)
  }

  /** The elements at the positions where the mask is true, in order. */
  function Select<T>(s: seq<T>, mask: seq<bool>): (r: seq<T>)
    requires |mask| == |s|
    ensures |r| <= |s|
    ensures forall x :: x in r ==> x in s
  {
    if s == [] then []
    else (if mask[0] then [s[0]] else []) + Select(s[1..], mask[1..])
  }

  lemma {:induction false} SelectMember<T>(s: seq<T>, mask: seq<bool>, i: nat)
    requires |mask| == |s| && i < |s| && mask[i]
    ensures s[i] in Select(s, mask)
  {
    if i > 0 {
      assert s[1..][i - 1] == s[i] && mask[1..][i - 1] == mask[i];
      SelectMember(s[1..], mask[1..], i - 1);
    }
  }

  lemma {:induction false} SelectFrom<T>(s: seq<T>, mask: seq<bool>, x: T) returns (i: nat)
    requires |mask| == |s| && x in Select(s, mask)
    ensures i < |s| && mask[i] && s[i] == x
  {
    if mask[0] && s[0] == x {
      i := 0;
    } else {
      var k := SelectFrom(s[1..], mask[1..], x);
      i := k + 1;
    }
  }

  lemma {:induction false} SelectAppend<T>(s: seq<T>, mask: seq<bool>, x: T, b: bool)
    requires |mask| == |s|
    ensures Select(s + [x], mask + [b]) == Select(s, mask) + (if b then [x] else [])
  {
    if s == [] {
      assert s + [x] == [x] && mask + [b] == [b];
    } else {
      assert (s + [x])[1..] == s[1..] + [x] && (mask + [b])[1..] == mask[1..] + [b];
      SelectAppend(s[1..], mask[1..], x, b);
    }
  }

  /** How many positions of the mask are true. */
  function Count(mask: seq<bool>): (n: nat)
    ensures n <= |mask|
  {
    if mask == [] then 0 else (if mask[0] then 1 else 0) + Count(mask[1..])
  }

  lemma {:induction false} CountAppend(mask: seq<bool>, b: bool)
    ensures Count(mask + [b]) == Count(mask) + (if b then 1 else 0)
  {
    if mask == [] {
      assert mask + [b] == [b];
    } else {
      assert (mask + [b])[1..] == mask[1..] + [b];
      CountAppend(mask[1..], b);
    }
  }

  lemma {:induction false} CountZero(mask: seq<bool>)
    ensures Count(mask) == 0 <==> forall i :: 0 <= i < |mask| ==> !mask[i]
  {
    if mask != [] {
      CountZero(mask[1..]);
      if Count(mask) == 0 {
        forall i | 0 <= i < |mask| ensures !mask[i] {
          if i > 0 { assert !mask[1..][i - 1]; }
        }
      }
      if forall i :: 0 <= i < |mask| ==> !mask[i] {
        forall i | 0 <= i < |mask[1..]| ensures !mask[1..][i] { assert !mask[i + 1]; }
      }
    }
  }
}
