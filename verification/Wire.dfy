/** Bytes, results, little-endian integers and the two reading primitives, with the
  * exactness of each: a read succeeds precisely on the encoding of what it returns. */
module Wire {

  type u8 = x: int | 0 <= x < 0x100
  type Bytes = seq<u8>
  type Digest = d: Bytes | |d| == 32 witness seq(32, _ => 0)
  /** BLAKE3, left uninterpreted. */
  type Hash = Bytes -> Digest

  datatype Option<+T> = None | Some(value: T)

  /** The subclasses of `ParseError`. */
  datatype Error = Truncated | BadMagic | Corrupt | Unsupported

  /** What a parse method returns; the cursor carries the position. */
  datatype Result<+T> = Success(value: T) | Failure(error: Error) {
    predicate IsFailure() {
      Failure?
    }

    function PropagateFailure<U>(): Result<U>
      requires Failure?
    {
      Failure(error)
    }

    function Extract(): T
      requires Success?
    {
      value
    }
  }

  /** What a decoding function returns: a value and the position just past it. */
  datatype Parsed<+T> = Ok(value: T, end: nat) | Err(error: Error) {
    predicate IsFailure() {
      Err?
    }

    function PropagateFailure<U>(): Parsed<U>
      requires Err?
    {
      Err(error)
    }

    function Extract(): (T, nat)
      requires Ok?
    {
      (value, end)
    }
  }

  /** `part` occurs in `buf` at offset `pos`. */
  predicate At(buf: Bytes, pos: nat, part: Bytes) {
    pos + |part| <= |buf| && buf[pos..pos + |part|] == part
  }

  lemma At2(buf: Bytes, pos: nat, a: Bytes, b: Bytes)
    ensures At(buf, pos, a + b) <==> At(buf, pos, a) && At(buf, pos + |a|, b)
  {
    var p, q := pos + |a|, pos + |a| + |b|;
    if q <= |buf| {
      assert buf[pos..q] == buf[pos..p] + buf[p..q];
      if buf[pos..q] == a + b {
        assert buf[pos..p] == buf[pos..q][..|a|] == (a + b)[..|a|] == a;
        assert buf[p..q] == buf[pos..q][|a|..] == (a + b)[|a|..] == b;
      }
    }
  }

  lemma At3(buf: Bytes, pos: nat, a: Bytes, b: Bytes, c: Bytes)
    ensures At(buf, pos, a + b + c)
       <==> At(buf, pos, a) && At(buf, pos + |a|, b) && At(buf, pos + |a| + |b|, c)
  {
    At2(buf, pos, a, b);
    At2(buf, pos, a + b, c);
  }

  lemma At4(buf: Bytes, pos: nat, a: Bytes, b: Bytes, c: Bytes, d: Bytes)
    ensures At(buf, pos, a + b + c + d)
       <==> At(buf, pos, a) && At(buf, pos + |a|, b) && At(buf, pos + |a| + |b|, c)
            && At(buf, pos + |a| + |b| + |c|, d)
  {
    At3(buf, pos, a, b, c);
    At2(buf, pos, a + b + c, d);
  }

  lemma At5(buf: Bytes, pos: nat, a: Bytes, b: Bytes, c: Bytes, d: Bytes, e: Bytes)
    ensures At(buf, pos, a + b + c + d + e)
       <==> At(buf, pos, a) && At(buf, pos + |a|, b) && At(buf, pos + |a| + |b|, c)
            && At(buf, pos + |a| + |b| + |c|, d) && At(buf, pos + |a| + |b| + |c| + |d|, e)
  {
    At4(buf, pos, a, b, c, d);
    At2(buf, pos, a + b + c + d, e);
  }

  lemma Assoc(s: Bytes, a: Bytes, b: Bytes)
    ensures s + a + b == s + (a + b)
  {
  }

  lemma Assoc3(s: Bytes, a: Bytes, b: Bytes, c: Bytes)
    ensures s + a + b + c == s + (a + b + c)
  {
    Assoc(s, a, b);
    Assoc(s, a + b, c);
  }

  lemma Assoc5(s: Bytes, a: Bytes, b: Bytes, c: Bytes, d: Bytes, e: Bytes)
    ensures s + a + b + c + d + e == s + (a + b + c + d + e)
  {
    Assoc3(s, a, b, c);
    Assoc3(s, a + b + c, d, e);
  }

  // ----- little-endian integers, as `struct.pack` and `struct.unpack` lay them out -----

  function Bound(width: nat): nat {
    if width == 0 then 1 else 256 * Bound(width - 1)
  }

  predicate Fits(n: int, width: nat) {
    0 <= n < Bound(width)
  }

  function Le(n: int, width: nat): (b: Bytes)
    ensures |b| == width
    decreases width
  {
    if width == 0 then [] else [n % 256] + Le(n / 256, width - 1)
  }

  function FromLe(b: Bytes): (n: nat)
    ensures Fits(n, |b|)
  {
    if |b| == 0 then 0 else b[0] + 256 * FromLe(b[1..])
  }

  lemma {:induction false} LeExact(b: Bytes, n: int)
    ensures FromLe(b) == n <==> Fits(n, |b|) && b == Le(n, |b|)
    decreases |b|
  {
    if |b| != 0 {
      LeExact(b[1..], n / 256);
      assert b == [b[0]] + b[1..];
      assert Le(n, |b|)[0] == n % 256 && Le(n, |b|)[1..] == Le(n / 256, |b| - 1);
    }
  }

  /** `p` accepts `v` and stops at `end` exactly when `v` is allowed and its encoding is there. */
  ghost predicate Accepts<T>(p: Parsed<T>, v: T, end: nat, allowed: bool, buf: Bytes, pos: nat, code: Bytes) {
    p == Ok(v, end) <==> allowed && At(buf, pos, code) && end == pos + |code|
  }

  // ----- the reading primitives (`Cursor.read` and the integer readers) -----

  function Read(buf: Bytes, pos: nat, n: int): (r: Parsed<Bytes>)
    ensures r.Ok? ==> 0 <= n == |r.value| && r.end == pos + n <= |buf|
  {
    if n < 0 then Err(Corrupt)
    else if pos + n > |buf| then Err(Truncated)
    else Ok(buf[pos..pos + n], pos + n)
  }

  function ReadInt(buf: Bytes, pos: nat, width: nat): (r: Parsed<int>)
    ensures r.Ok? ==> r.end == pos + width <= |buf| && Fits(r.value, width)
  {
    var (b, end) :- Read(buf, pos, width);
    Ok(FromLe(b), end)
  }

  /** The three outcomes of a read. */
  lemma ReadOutcomes(buf: Bytes, pos: nat, n: int)
    ensures n < 0 ==> Read(buf, pos, n) == Err(Corrupt)
    ensures n >= 0 && pos + n > |buf| ==> Read(buf, pos, n) == Err(Truncated)
    ensures n >= 0 && pos + n <= |buf| ==> Read(buf, pos, n) == Ok(buf[pos..pos + n], pos + n)
  {
  }

  lemma ReadExact(buf: Bytes, pos: nat, n: int, b: Bytes, end: nat)
    ensures Accepts(Read(buf, pos, n), b, end, |b| == n, buf, pos, b)
  {
  }

  lemma ReadIntExact(buf: Bytes, pos: nat, width: nat, n: int, end: nat)
    ensures Accepts(ReadInt(buf, pos, width), n, end, Fits(n, width), buf, pos, Le(n, width))
  {
    hide Le, FromLe, Bound;
    if pos + width <= |buf| {
      LeExact(buf[pos..pos + width], n);
    }
  }

  // ----- counted lists -----

  /** Reads one element; the elements already read decide what is still allowed. */
  type Step<!T> = (Bytes, nat, seq<T>) -> Parsed<T>

  function Many<T>(step: Step<T>, buf: Bytes, pos: nat, n: nat, acc: seq<T>): (r: Parsed<seq<T>>)
    ensures r.Ok? ==> |r.value| == |acc| + n && acc <= r.value
    decreases n
  {
    if n == 0 then Ok(acc, pos) else
      var (v, next) :- step(buf, pos, acc);
      Many(step, buf, next, n - 1, acc + [v])
  }

  /** A list behind a count. With `prechecks` it first asks for `n * minWidth` bytes, as the
    * reader does before looping; without, it is the plain loop. */
  function Counted<T>(prechecks: bool, minWidth: nat, step: Step<T>, buf: Bytes, pos: nat, n: nat)
    : (r: Parsed<seq<T>>)
    ensures r.Ok? ==> |r.value| == n
  {
    if prechecks && |buf| - pos < n * minWidth then Err(Truncated)
    else Many(step, buf, pos, n, [])
  }

  function EncodeAll<T>(encode: T -> Bytes, vs: seq<T>): Bytes {
    if |vs| == 0 then [] else encode(vs[0]) + EncodeAll(encode, vs[1..])
  }

  /** `ok(before, v)`: `v` may follow the elements `before`. */
  ghost predicate Allowed<T>(ok: (seq<T>, T) -> bool, vs: seq<T>, from: nat) {
    forall i :: from <= i < |vs| ==> ok(vs[..i], vs[i])
  }

  /** What accepts exactly the encodings of something depends on no byte outside them: the same
    * bytes elsewhere, followed by anything or by nothing, read the same. */
  lemma ExactIsLocal<T>(p: Parsed<T>, p': Parsed<T>, v: T, end: nat, allowed: bool,
                        buf: Bytes, buf': Bytes, pos: nat, code: Bytes)
    requires Accepts(p, v, end, allowed, buf, pos, code) && Accepts(p', v, end, allowed, buf', pos, code)
    requires p == Ok(v, end) && pos <= end <= |buf| && end <= |buf'| && buf[pos..end] == buf'[pos..end]
    ensures p' == p
  {
  }

  /** The step accepts exactly the encodings of the elements allowed after `acc`. */
  ghost predicate Exact<T(!new)>(step: Step<T>, ok: (seq<T>, T) -> bool, encode: T -> Bytes) {
    forall buf, pos: nat, acc, v, end: nat ::
      Accepts(step(buf, pos, acc), v, end, ok(acc, v), buf, pos, encode(v))
  }

  lemma {:induction false} ManySound<T(!new)>(step: Step<T>, ok: (seq<T>, T) -> bool, encode: T -> Bytes,
                                        buf: Bytes, pos: nat, n: nat, acc: seq<T>)
    requires Exact(step, ok, encode) && pos <= |buf|
    requires Many(step, buf, pos, n, acc).Ok?
    ensures var r := Many(step, buf, pos, n, acc);
            && Allowed(ok, r.value, |acc|)
            && At(buf, pos, EncodeAll(encode, r.value[|acc|..]))
            && r.end == pos + |EncodeAll(encode, r.value[|acc|..])|
    decreases n
  {
    var r := Many(step, buf, pos, n, acc);
    var vs := r.value[|acc|..];
    if n == 0 {
      assert vs == [];
    } else {
      var one := step(buf, pos, acc);
      assert Accepts(one, one.value, one.end, ok(acc, one.value), buf, pos, encode(one.value));
      ManySound(step, ok, encode, buf, one.end, n - 1, acc + [one.value]);
      assert r.value[..|acc|] == acc && r.value[|acc|] == one.value;
      assert vs[1..] == r.value[|acc + [one.value]|..];
      At2(buf, pos, encode(vs[0]), EncodeAll(encode, vs[1..]));
    }
  }

  lemma {:induction false} ManyComplete<T(!new)>(step: Step<T>, ok: (seq<T>, T) -> bool, encode: T -> Bytes,
                                           buf: Bytes, pos: nat, acc: seq<T>, vs: seq<T>)
    requires Exact(step, ok, encode)
    requires Allowed(ok, acc + vs, |acc|)
    requires At(buf, pos, EncodeAll(encode, vs))
    ensures Many(step, buf, pos, |vs|, acc) == Ok(acc + vs, pos + |EncodeAll(encode, vs)|)
    decreases |vs|
  {
    if |vs| == 0 {
      assert acc + vs == acc;
    } else {
      At2(buf, pos, encode(vs[0]), EncodeAll(encode, vs[1..]));
      assert (acc + vs)[..|acc|] == acc && (acc + vs)[|acc|] == vs[0];
      assert Accepts(step(buf, pos, acc), vs[0], pos + |encode(vs[0])|, ok(acc, vs[0]), buf, pos, encode(vs[0]));
      assert acc + vs == (acc + [vs[0]]) + vs[1..];
      ManyComplete(step, ok, encode, buf, pos + |encode(vs[0])|, acc + [vs[0]], vs[1..]);
    }
  }

  /** Repeating an exact step is exact. */
  lemma ManyExact<T(!new)>(step: Step<T>, ok: (seq<T>, T) -> bool, encode: T -> Bytes,
                           buf: Bytes, pos: nat, n: nat, vs: seq<T>, end: nat)
    requires Exact(step, ok, encode) && pos <= |buf|
    ensures Accepts(Many(step, buf, pos, n, []), vs, end,
                    |vs| == n && Allowed(ok, vs, 0), buf, pos, EncodeAll(encode, vs))
  {
    if Many(step, buf, pos, n, []) == Ok(vs, end) {
      ManySound(step, ok, encode, buf, pos, n, []);
      assert vs[0..] == vs;
    }
    if |vs| == n && Allowed(ok, vs, 0) && At(buf, pos, EncodeAll(encode, vs)) {
      assert [] + vs == vs;
      ManyComplete(step, ok, encode, buf, pos, [], vs);
    }
  }

  lemma {:induction false} EncodeAllWidth<T>(encode: T -> Bytes, vs: seq<T>, minWidth: nat)
    requires forall v :: v in vs ==> |encode(v)| >= minWidth
    ensures |EncodeAll(encode, vs)| >= |vs| * minWidth
  {
    if |vs| != 0 {
      EncodeAllWidth(encode, vs[1..], minWidth);
    }
  }

  function Total<T>(weight: T -> nat, vs: seq<T>): nat {
    if |vs| == 0 then 0 else weight(vs[0]) + Total(weight, vs[1..])
  }

  lemma {:induction false} EncodeAllTotal<T>(encode: T -> Bytes, weight: T -> nat, vs: seq<T>)
    requires forall v :: v in vs ==> |encode(v)| >= weight(v)
    ensures |EncodeAll(encode, vs)| >= Total(weight, vs)
  {
    if |vs| != 0 {
      EncodeAllTotal(encode, weight, vs[1..]);
    }
  }

  lemma {:induction false} EncodeAllAppend<T>(encode: T -> Bytes, vs: seq<T>, v: T)
    ensures EncodeAll(encode, vs + [v]) == EncodeAll(encode, vs) + encode(v)
  {
    if |vs| == 0 {
      assert vs + [v] == [v];
      assert encode(v) + [] == encode(v);
    } else {
      EncodeAllAppend(encode, vs[1..], v);
      assert (vs + [v])[1..] == vs[1..] + [v];
    }
  }

  /** One more element on an output that starts with `start`. */
  lemma EncodeAllNext<T>(start: Bytes, encode: T -> Bytes, vs: seq<T>, i: nat)
    requires i < |vs|
    ensures start + EncodeAll(encode, vs[..i + 1]) == start + EncodeAll(encode, vs[..i]) + encode(vs[i])
  {
    EncodeAllAppend(encode, vs[..i], vs[i]);
    assert vs[..i + 1] == vs[..i] + [vs[i]];
  }

  /** The precheck refuses nothing the plain loop accepts, and changes nothing it returns:
    * both meet the same description, provided each allowed element is `minWidth` wide. */
  lemma CountedExact<T(!new)>(prechecks: bool, minWidth: nat, step: Step<T>, ok: (seq<T>, T) -> bool,
                              encode: T -> Bytes, buf: Bytes, pos: nat, n: nat, vs: seq<T>, end: nat)
    requires Exact(step, ok, encode) && pos <= |buf|
    requires forall acc, v :: ok(acc, v) ==> |encode(v)| >= minWidth
    ensures Accepts(Counted(prechecks, minWidth, step, buf, pos, n), vs, end,
                    |vs| == n && Allowed(ok, vs, 0), buf, pos, EncodeAll(encode, vs))
  {
    ManyExact(step, ok, encode, buf, pos, n, vs, end);
    if |vs| == n && Allowed(ok, vs, 0) {
      EncodeAllWidth(encode, vs, minWidth);
    }
  }

  // ----- what prechecks and missing bytes do to errors -----

  /** The same outcome, or a report of truncation in its place. */
  predicate Hastens<T(==)>(early: Parsed<T>, late: Parsed<T>) {
    early == late || early == Err(Truncated)
  }

  lemma ReadHastens(buf: Bytes, longer: Bytes, pos: nat, n: int)
    requires buf <= longer
    ensures Hastens(Read(buf, pos, n), Read(longer, pos, n))
    ensures n >= 0 ==> Hastens(ReadInt(buf, pos, n), ReadInt(longer, pos, n))
  {
    if 0 <= n && pos + n <= |buf| {
      assert buf[pos..pos + n] == longer[..|buf|][pos..pos + n] == longer[pos..pos + n];
    }
  }

  lemma {:induction false} ManyHastens<T(!new)>(early: Step<T>, late: Step<T>, buf: Bytes, longer: Bytes,
                                          pos: nat, n: nat, acc: seq<T>)
    requires forall p: nat, before :: Hastens(early(buf, p, before), late(longer, p, before))
    ensures Hastens(Many(early, buf, pos, n, acc), Many(late, longer, pos, n, acc))
    decreases n
  {
    if n != 0 {
      assert Hastens(early(buf, pos, acc), late(longer, pos, acc));
      var one := late(longer, pos, acc);
      if one.Ok? {
        ManyHastens(early, late, buf, longer, one.end, n - 1, acc + [one.value]);
      }
    }
  }

  /** Guards, here and inside the step, only ever bring truncation forward, and so does a buffer
    * that ends sooner. */
  lemma CountedHastens<T(!new)>(guarded: bool, guarded': bool, minWidth: nat, early: Step<T>, late: Step<T>,
                                buf: Bytes, longer: Bytes, pos: nat, n: nat)
    requires guarded' ==> guarded
    requires buf <= longer && forall p: nat, before :: Hastens(early(buf, p, before), late(longer, p, before))
    ensures Hastens(Counted(guarded, minWidth, early, buf, pos, n), Counted(guarded', minWidth, late, longer, pos, n))
  {
    ManyHastens(early, late, buf, longer, pos, n, []);
  }

  /** A guard shows exactly when it fires and the plain loop does not itself find truncation. */
  lemma GuardShows<T>(minWidth: nat, step: Step<T>, buf: Bytes, pos: nat, n: nat)
    ensures Counted(true, minWidth, step, buf, pos, n) != Counted(false, minWidth, step, buf, pos, n)
       <==> |buf| - pos < n * minWidth && Counted(false, minWidth, step, buf, pos, n) != Err(Truncated)
  {
  }

  /** With `room` bytes left nothing is missing, and no more than those are read. */
  predicate Roomy<T>(p: Parsed<T>, buf: Bytes, pos: nat, room: nat) {
    pos + room <= |buf| ==> (p.Err? ==> p.error != Truncated) && (p.Ok? ==> p.end <= pos + room)
  }

  lemma {:induction false} ManyRoomy<T(!new)>(step: Step<T>, buf: Bytes, pos: nat, n: nat, acc: seq<T>, room: nat)
    requires forall p: nat, before :: Roomy(step(buf, p, before), buf, p, room)
    ensures Roomy(Many(step, buf, pos, n, acc), buf, pos, n * room)
    decreases n
  {
    if n != 0 {
      assert Roomy(step(buf, pos, acc), buf, pos, room);
      assert n * room == room + (n - 1) * room;
      NonNegative(n - 1, room);
      var one := step(buf, pos, acc);
      if one.Ok? {
        ManyRoomy(step, buf, one.end, n - 1, acc + [one.value], room);
      }
    }
  }

  lemma NonNegative(a: nat, b: nat)
    ensures a * b >= 0
  {
  }

  /** A list of at most `most` elements. */
  lemma CountedRoomy<T(!new)>(prechecks: bool, minWidth: nat, step: Step<T>, buf: Bytes, pos: nat, n: nat,
                              most: nat, room: nat)
    requires n <= most && minWidth <= room && forall p: nat, before :: Roomy(step(buf, p, before), buf, p, room)
    ensures Roomy(Counted(prechecks, minWidth, step, buf, pos, n), buf, pos, most * room)
    ensures Roomy(Many(step, buf, pos, n, []), buf, pos, most * room)
  {
    ManyRoomy(step, buf, pos, n, [], room);
    ProductGrows(n, minWidth, n, room);
    ProductGrows(n, room, most, room);
  }

  lemma ProductGrows(a: nat, b: nat, c: nat, d: nat)
    requires a <= c && b <= d
    ensures a * b <= c * d
  {
    assert a * b <= a * d;
    assert a * d <= c * d;
  }

  /** Neither a wrong magic nor an unsupported feature. */
  predicate Plain<T>(p: Parsed<T>) {
    p.Err? ==> p.error == Truncated || p.error == Corrupt
  }

  lemma {:induction false} ManyPlain<T(!new)>(step: Step<T>, buf: Bytes, pos: nat, n: nat, acc: seq<T>)
    requires forall p: nat, before :: Plain(step(buf, p, before))
    ensures Plain(Many(step, buf, pos, n, acc))
    decreases n
  {
    if n != 0 {
      assert Plain(step(buf, pos, acc));
      var one := step(buf, pos, acc);
      if one.Ok? {
        ManyPlain(step, buf, one.end, n - 1, acc + [one.value]);
      }
    }
  }

  /** A loop fails with an error exactly when some turn, reached with every turn before it done,
    * fails with it. */
  lemma {:induction false} ManyFails<T(!new)>(step: Step<T>, buf: Bytes, pos: nat, n: nat, acc: seq<T>, e: Error)
    ensures Many(step, buf, pos, n, acc) == Err(e)
       <==> exists i: nat :: i < n && FailsAt(step, buf, pos, i, acc, e)
    decreases n
  {
    var one := step(buf, pos, acc);
    if n != 0 && one.Ok? {
      var acc' := acc + [one.value];
      ManyFails(step, buf, one.end, n - 1, acc', e);
      if i: nat :| i < n - 1 && FailsAt(step, buf, one.end, i, acc', e) {
        assert FailsAt(step, buf, pos, i + 1, acc, e);
      }
      if i: nat :| i < n && FailsAt(step, buf, pos, i, acc, e) {
        assert i != 0;
        assert FailsAt(step, buf, one.end, i - 1, acc', e);
      }
    } else if n != 0 {
      if one == Err(e) {
        assert FailsAt(step, buf, pos, 0, acc, e);
      }
      if i: nat :| i < n && FailsAt(step, buf, pos, i, acc, e) {
        assert i == 0;
      }
    }
  }

  ghost predicate FailsAt<T>(step: Step<T>, buf: Bytes, pos: nat, i: nat, acc: seq<T>, e: Error) {
    var before := Many(step, buf, pos, i, acc);
    before.Ok? && step(buf, before.end, before.value) == Err(e)
  }
}
