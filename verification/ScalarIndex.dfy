/**
 The match cursor's compact index from byte offsets back to scalar positions: the
 number of scalar starts before every 256-byte block, built once and on demand.
 */
module ScalarIndex {
  import opened Words
  import opened Utf8

  const BLOCK_BYTES := 256
  const SCAN_BYTES := 32

  /** How many bytes start a scalar. */
  function Starts(bytes: seq<Byte>): nat {
    if bytes == [] then 0
    else Starts(bytes[..|bytes| - 1]) + if IsContinuation(bytes[|bytes| - 1]) then 0 else 1
  }

  lemma {:induction false} StartsConcat(a: seq<Byte>, b: seq<Byte>)
    ensures Starts(a + b) == Starts(a) + Starts(b)
  {
    if b == [] {
      assert a + b == a;
    } else {
      assert (a + b)[..|a + b| - 1] == a + b[..|b| - 1];
      StartsConcat(a, b[..|b| - 1]);
    }
  }

  /** The simple form: scan everything before the offset. */
  function ScalarPosition(input: seq<Byte>, offset: nat): nat
    requires offset <= |input|
  {
    Starts(input[..offset])
  }

  lemma ScalarPositionSplits(input: seq<Byte>, from: nat, to: nat)
    requires from <= to <= |input|
    ensures ScalarPosition(input, to) == ScalarPosition(input, from) + Starts(input[from..to])
  {
    assert input[..to] == input[..from] + input[from..to];
    StartsConcat(input[..from], input[from..to]);
  }

  /** On valid UTF-8 the k-th boundary is found at scalar position k. */
  lemma {:induction false} BoundaryHasScalarPosition(cs: seq<Scalar>, k: nat)
    requires k <= |cs|
    ensures Boundary(cs, k) <= |EncodeAll(cs)|
    ensures ScalarPosition(EncodeAll(cs), Boundary(cs, k)) == k
  {
    hide Encode;
    if k == 0 {
    } else {
      BoundaryHasScalarPosition(cs, k - 1);
      BoundaryStep(cs, k - 1);
      ScalarPositionSplits(EncodeAll(cs), Boundary(cs, k - 1), Boundary(cs, k));
      var bytes := Encode(cs[k - 1]);
      assert EncodeAll(cs)[Boundary(cs, k - 1)..Boundary(cs, k)] == bytes;
      OneStart(bytes, |bytes|);
      assert bytes[..|bytes|] == bytes;
    }
  }

  lemma {:induction false} OneStart(bytes: seq<Byte>, n: nat)
    requires 0 < n <= |bytes| && !IsContinuation(bytes[0])
    requires forall i :: 0 < i < |bytes| ==> IsContinuation(bytes[i])
    ensures Starts(bytes[..n]) == 1
  {
    assert bytes[..n][..n - 1] == bytes[..n - 1];
    if n == 1 {
    } else {
      OneStart(bytes, n - 1);
    }
  }

  class Cursor {
    const input: seq<Byte>
    var prefixes: array?<nat>

    ghost predicate Valid()
      reads this, prefixes
    {
      prefixes != null && prefixes.Length != 0 ==>
        && prefixes.Length == |input| / 256 + 1
        && forall block :: 0 <= block < prefixes.Length ==>
             prefixes[block] == ScalarPosition(input, block * 256)
    }

    ghost predicate Indexed()
      reads this, prefixes
    {
      Valid() && prefixes != null && (prefixes.Length == 0 ==> |input| < 256)
    }

    constructor (input: seq<Byte>)
      ensures Valid() && this.input == input && prefixes == null
    {
      this.input := input;
      prefixes := null;
    }

    method CountScalarStarts(bytes: seq<Byte>) returns (count: nat)
      ensures count == Starts(bytes)
    {
      count := 0;
      var offset := 0;
      while offset < |bytes|
        invariant offset <= |bytes|
        invariant count == ScalarPosition(bytes, offset)
      {
        var length := if SCAN_BYTES < |bytes| - offset then SCAN_BYTES else |bytes| - offset;
        for i := offset to offset + length
          invariant count == ScalarPosition(bytes, i)
        {
          assert bytes[..i + 1][..i] == bytes[..i];
          if !IsContinuation(bytes[i]) {
            count := count + 1;
          }
        }
        offset := offset + length;
      }
      assert bytes[..|bytes|] == bytes;
    }

    method EnsureScalarPrefixes()
      requires Valid()
      requires prefixes != null ==> Indexed()
      modifies this`prefixes
      ensures Indexed()
      ensures old(prefixes) != null ==> prefixes == old(prefixes)
      ensures old(prefixes) == null ==> fresh(prefixes)
    {
      if prefixes != null {
        return;
      }
      var count := |input| / BLOCK_BYTES + 1;
      if count == 1 {
        prefixes := new nat[0];
        return;
      }
      var built := new nat[count];
      built[0] := 0;
      for block := 1 to count
        invariant fresh(built) && built.Length == count && prefixes == null
        invariant forall b :: 0 <= b < block ==> built[b] == ScalarPosition(input, b * BLOCK_BYTES)
      {
        var start := (block - 1) * BLOCK_BYTES;
        var starts := CountScalarStarts(input[start..start + BLOCK_BYTES]);
        ScalarPositionSplits(input, start, start + BLOCK_BYTES);
        built[block] := built[block - 1] + starts;
      }
      prefixes := built;
    }

    /** The fast form agrees with the scan, also where a block cuts through a scalar. */
    method ScalarOffset(byteOffset: nat) returns (position: nat)
      requires Indexed() && byteOffset <= |input|
      ensures position == ScalarPosition(input, byteOffset)
    {
      var block := byteOffset / BLOCK_BYTES;
      var count := if prefixes.Length == 0 then 0 else prefixes[block];
      var start := block * BLOCK_BYTES;
      var starts := CountScalarStarts(input[start..byteOffset]);
      ScalarPositionSplits(input, start, byteOffset);
      position := count + starts;
    }
  }
}
