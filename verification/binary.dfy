/**
 * The byte-level reading the MDict code does through `byteorder` and
 * `std::io`: big-endian unsigned integers and `read_exact` over a byte
 * sequence read from a position, plus the outcomes of the functions that
 * return `anyhow::Result` (a value, an error, or a panic on an index out of
 * range).
 */
module Binary {
  import opened Wrappers

  newtype byte = x: int | 0 <= x < 256

  type Bytes = seq<byte>

  /** 2^64: `u64` arithmetic wraps modulo this in a release build. */
  const U64: nat := 0x1_0000_0000_0000_0000

  /** 2^63: `File::seek` hands the position to `lseek` as a signed 64-bit offset. */
  const I64: nat := 0x8000_0000_0000_0000

  /** Wrapping `u64` addition and `Iterator::sum` (release build, no overflow check). */
  function Wrap(x: nat): (r: nat)
    ensures r < U64
    ensures x < U64 ==> r == x
    decreases x
  {
    if x < U64 then x else Wrap(x - U64)
  }

  datatype Error =
    | Eof                          // `read_exact` ran past the end of the data
    | SeekOutOfRange               // a file position `lseek` refuses
    | UnknownCompression(kind: byte)
    | InflateFailed                // the zlib stream did not decode
    | RecordNotFound(offset: nat)  // no record block holds the offset

  /** What an `anyhow::Result`-returning function does: returns, fails, or panics. */
  datatype Outcome<T> = Ok(value: T) | Err(error: Error) | Panic

  function Pow256(n: nat): (r: nat)
    ensures r >= 1
  {
    if n == 0 then 1 else 256 * Pow256(n - 1)
  }

  /** The big-endian unsigned number the bytes spell. */
  function BeNat(b: Bytes): (r: nat)
    ensures r < Pow256(|b|)
  {
    if |b| == 0 then 0 else BeNat(b[..|b| - 1]) * 256 + b[|b| - 1] as nat
  }

  /** The `n`-byte big-endian spelling of `x` (the writer's side of `BeNat`). */
  function BeBytes(x: nat, n: nat): (b: Bytes)
    ensures |b| == n
  {
    if n == 0 then [] else BeBytes(x / 256, n - 1) + [(x % 256) as byte]
  }

  lemma {:induction false} BeRoundTrip(x: nat, n: nat)
    requires x < Pow256(n)
    ensures BeNat(BeBytes(x, n)) == x
  {
    if n > 0 {
      var b := BeBytes(x, n);
      assert b[..n - 1] == BeBytes(x / 256, n - 1);
      BeRoundTrip(x / 256, n - 1);
    }
  }

  lemma {:induction false} BeBytesOfBeNat(b: Bytes)
    ensures BeBytes(BeNat(b), |b|) == b
  {
    if |b| > 0 {
      var p := b[..|b| - 1];
      var x := BeNat(b);
      assert x / 256 == BeNat(p);
      assert x % 256 == b[|b| - 1] as nat;
      BeBytesOfBeNat(p);
      assert p + [b[|b| - 1]] == b;
    }
  }

  /** `read_exact` of `n` bytes at `pos`; a position past the end is allowed and only reading from it fails. */
  function Take(data: Bytes, pos: nat, n: nat): (r: Option<Bytes>)
    ensures r.Some? <==> n == 0 || pos + n <= |data|
    ensures r.Some? ==> |r.value| == n
    ensures r.Some? && n > 0 ==> r.value == data[pos..pos + n]
  {
    if n == 0 then Some([])
    else if pos + n <= |data| then Some(data[pos..pos + n])
    else None
  }

  /** `read_u8`, `read_u16::<BigEndian>`, `read_u32::<BigEndian>`, `read_u64::<BigEndian>`: the number and the next position. */
  function ReadUInt(data: Bytes, pos: nat, width: nat): (r: Outcome<(nat, nat)>)
    ensures !r.Panic?
    ensures r.Ok? <==> width == 0 || pos + width <= |data|
    ensures r.Ok? ==> r.value.0 < Pow256(width) && r.value.1 == pos + width
    ensures r.Ok? && width > 0 ==> BeBytes(r.value.0, width) == data[pos..pos + width]
  {
    match Take(data, pos, width)
    case None => Err(Eof)
    case Some(b) =>
      BeBytesOfBeNat(b);
      Ok((BeNat(b), pos + width))
  }

  function ReadU64(data: Bytes, pos: nat): (r: Outcome<(nat, nat)>)
    ensures r.Ok? ==> r.value.0 < U64
  {
    assert Pow256(8) == U64;
    ReadUInt(data, pos, 8)
  }

  /** `File::seek(SeekFrom::Start(pos))`. */
  function Seek(pos: nat): (r: Outcome<nat>)
    ensures r.Ok? <==> pos < I64
    ensures r.Ok? ==> r.value == pos
  {
    if pos < I64 then Ok(pos) else Err(SeekOutOfRange)
  }

  /** Seeking a file to `pos` and reading `n` bytes there. */
  function ReadAt(file: Bytes, pos: nat, n: nat): (r: Outcome<Bytes>)
    ensures !r.Panic?
    ensures r.Ok? ==> |r.value| == n
  {
    match Seek(pos)
    case Ok(p) => (match Take(file, p, n) case Some(b) => Ok(b) case None => Err(Eof))
    case _ => Err(SeekOutOfRange)
  }

  /** The failure of `o`, passed on unchanged: what `?` does. */
  function Fail<A, B>(o: Outcome<A>): (r: Outcome<B>)
    requires !o.Ok?
    ensures !r.Ok?
  {
    match o
    case Err(e) => Err(e)
    case Panic => Panic
  }

  /** `x` in front of a successful list; failures pass through. */
  function Prepend<T>(x: T, rest: Outcome<seq<T>>): (r: Outcome<seq<T>>)
    ensures r.Ok? <==> rest.Ok?
    ensures r.Ok? ==> r.value == [x] + rest.value
    ensures !rest.Ok? ==> r == rest
  {
    match rest
    case Ok(xs) => Ok([x] + xs)
    case Err(e) => Err(e)
    case Panic => Panic
  }

  /** `xs` in front of a successful list; failures pass through (the state of a loop that pushes). */
  function Extend<T>(xs: seq<T>, rest: Outcome<seq<T>>): (r: Outcome<seq<T>>)
    ensures r.Ok? <==> rest.Ok?
    ensures r.Ok? ==> r.value == xs + rest.value
    ensures !rest.Ok? ==> r == rest
  {
    match rest
    case Ok(ys) => Ok(xs + ys)
    case Err(e) => Err(e)
    case Panic => Panic
  }

  lemma ExtendPrepend<T>(xs: seq<T>, x: T, rest: Outcome<seq<T>>)
    ensures Extend(xs, Prepend(x, rest)) == Extend(xs + [x], rest)
  {
    if rest.Ok? {
      assert xs + ([x] + rest.value) == (xs + [x]) + rest.value;
    }
  }

  lemma ExtendEmpty<T>(rest: Outcome<seq<T>>)
    ensures Extend([], rest) == rest
  {
    if rest.Ok? {
      assert [] + rest.value == rest.value;
    }
  }

  /** `n` items read one after another from `pos`, each by `step`, which returns the item and the next position. */
  function ManyFrom<T>(data: Bytes, pos: nat, n: nat, step: (Bytes, nat) -> Outcome<(T, nat)>): (r: Outcome<seq<T>>)
    ensures r.Ok? ==> |r.value| == n
    decreases n
  {
    if n == 0 then Ok([])
    else
      var one := step(data, pos);
      if one.Ok? then Prepend(one.value.0, ManyFrom(data, one.value.1, n - 1, step)) else Fail(one)
  }

  /** A loop that reads `n` items with `step` and pushes them, stopping at the first failure (`?`). */
  method ReadMany<T>(data: Bytes, n: nat, step: (Bytes, nat) -> Outcome<(T, nat)>) returns (r: Outcome<seq<T>>)
    ensures r == ManyFrom(data, 0, n, step)
  {
    var items: seq<T> := [];
    var pos := 0;
    var i := 0;
    ExtendEmpty(ManyFrom(data, 0, n, step));
    while i < n
      invariant i <= n
      invariant Extend(items, ManyFrom(data, pos, n - i, step)) == ManyFrom(data, 0, n, step)
    {
      var one := step(data, pos);
      if !one.Ok? {
        assert ManyFrom(data, pos, n - i, step) == Fail(one);
        return Fail(one);
      }
      ExtendPrepend(items, one.value.0, ManyFrom(data, one.value.1, n - i - 1, step));
      items := items + [one.value.0];
      pos := one.value.1;
      i := i + 1;
    }
    assert items + [] == items;
    r := Ok(items);
  }

  function Sum(xs: seq<nat>): nat
  {
    if |xs| == 0 then 0 else Sum(xs[..|xs| - 1]) + xs[|xs| - 1]
  }

  lemma SumStep(xs: seq<nat>, k: nat)
    requires k < |xs|
    ensures Sum(xs[..k + 1]) == Sum(xs[..k]) + xs[k]
  {
    assert xs[..k + 1][..k] == xs[..k];
  }

  /** Wrapping is compatible with addition: a running wrapped sum is the wrapped true sum. */
  lemma WrapAdd(a: nat, b: nat)
    ensures Wrap(Wrap(a) + b) == Wrap(a + b)
    ensures Wrap(a + Wrap(b)) == Wrap(a + b)
  {
    WrapAddLeft(a, b);
    WrapAddLeft(b, a);
  }

  lemma {:induction false} WrapAddLeft(a: nat, b: nat)
    ensures Wrap(Wrap(a) + b) == Wrap(a + b)
    decreases a
  {
    if a >= U64 {
      WrapAddLeft(a - U64, b);
    }
  }
}
