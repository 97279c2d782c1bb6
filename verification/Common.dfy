/** Bytes, machine integers and outcomes shared by every component. */
module Common {

  type Byte = b: int | 0 <= b < 256

  type Nibble = n: int | 0 <= n < 16

  /** `std::vector<uint8_t>`; `std::string` is also modelled by its bytes. */
  type Bytes = seq<Byte>
  type Text = seq<Byte>

  /** 2^64, the number of values of `uint64_t` and `size_t`. */
  const TWO64: int := 0x1_0000_0000_0000_0000

  type Uint64 = x: int | 0 <= x < 0x1_0000_0000_0000_0000

  /** The largest size a `std::vector` of bytes can have on a 64-bit target. */
  const MAX_SIZE: int := 0x7fff_ffff_ffff_ffff

  type Digest = b: Bytes | |b| == 32 witness seq(32, _ => 0)
  type Address = b: Bytes | |b| == 20 witness seq(20, _ => 0)

  const ZERO_ADDRESS: Address := [0, 0, 0, 0, 0, 0, 0, 0, 0, 0, 0, 0, 0, 0, 0, 0, 0, 0, 0, 0]

  /** Keccak-256 as the rest of the system sees it: any function to 32 bytes. */
  type Hash = Bytes -> Digest

  /** Addition as `size_t` and `uint64_t` do it. */
  function Add64(a: Uint64, b: Uint64): Uint64 {
    if a + b < TWO64 then a + b else a + b - TWO64
  }

  datatype Option<+T> = None | Some(value: T)

  /**
   * What a C++ call can do: return, throw, or step outside the language
   * (`Undefined`, here a vector built from an inverted iterator range).
   */
  datatype Outcome<+T> = Ok(value: T) | Throw(what: string) | Undefined
  {
    predicate IsFailure() { !Ok? }

    function PropagateFailure<U>(): Outcome<U>
      requires IsFailure()
    {
      if Undefined? then Undefined else Throw(what)
    }

    function Extract(): T
      requires Ok?
    {
      value
    }
  }

  /** The concatenation of a vector of byte vectors. */
  function Concat(parts: seq<Bytes>): Bytes {
    if parts == [] then [] else parts[0] + Concat(parts[1..])
  }

  lemma {:induction false} ConcatAppend(parts: seq<Bytes>, last: Bytes)
    ensures Concat(parts + [last]) == Concat(parts) + last
  {
    if parts == [] {
      assert parts + [last] == [last];
      assert Concat([last]) == last + Concat([]);
    } else {
      ConcatAppend(parts[1..], last);
      assert (parts + [last])[1..] == parts[1..] + [last];
    }
  }

  /** A loop that collects `f` of every element and stops at the first failure. */
  function Traverse<A, B>(f: A -> Outcome<B>, xs: seq<A>): (r: Outcome<seq<B>>)
    ensures r.Ok? ==> |r.value| == |xs|
  {
    if xs == [] then Ok([])
    else
      var init :- Traverse(f, xs[..|xs| - 1]);
      var last :- f(xs[|xs| - 1]);
      Ok(init + [last])
  }

  lemma TraverseStep<A, B>(f: A -> Outcome<B>, xs: seq<A>, i: nat)
    requires i < |xs| && Traverse(f, xs[..i]).Ok?
    ensures Traverse(f, xs[..i + 1]) ==
            match f(xs[i])
            case Ok(y) => Ok(Traverse(f, xs[..i]).value + [y])
            case failed => failed.PropagateFailure()
  {
    assert xs[..i + 1][..i] == xs[..i];
  }

  /** Nothing after the first failure matters. */
  lemma {:induction false} TraverseFails<A, B>(f: A -> Outcome<B>, xs: seq<A>, i: nat)
    requires i <= |xs| && !Traverse(f, xs[..i]).Ok?
    ensures Traverse(f, xs) == Traverse(f, xs[..i])
  {
    if i == |xs| {
      assert xs[..i] == xs;
    } else {
      assert xs[..|xs| - 1][..i] == xs[..i];
      TraverseFails(f, xs[..|xs| - 1], i);
    }
  }

  /** It succeeds exactly when every element does, and then holds their values in order. */
  lemma {:induction false} TraverseAll<A, B>(f: A -> Outcome<B>, xs: seq<A>)
    ensures Traverse(f, xs).Ok? <==> forall i :: 0 <= i < |xs| ==> f(xs[i]).Ok?
    ensures Traverse(f, xs).Ok? ==> forall i :: 0 <= i < |xs| ==> f(xs[i]) == Ok(Traverse(f, xs).value[i])
  {
    if xs != [] {
      TraverseAll(f, xs[..|xs| - 1]);
    }
  }
}
