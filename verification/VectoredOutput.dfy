/** Buffered terminal output: writes are gathered into vectors and handed to the system, which may take them in pieces. */
module VectoredOutput {
  const MAX_VECTORS := 128
  const POOL_SIZE := 8192
  const FLUSH_VECTORS := 64
  const FLUSH_BYTES := 4096

  /** What one system call does: nothing because of a signal, some bytes, or a hard error. */
  datatype Outcome = Interrupted | Wrote(bytes: nat) | Failed

  /** A stretch of the data pool. */
  datatype Vector = Vector(base: nat, len: nat)

  predicate Within(vs: seq<Vector>, size: nat) { forall v | v in vs :: v.base + v.len <= size }

  /** The bytes of one vector. */
  function Chunk(pool: seq<char>, v: Vector): (c: seq<char>)
    requires v.base + v.len <= |pool|
    ensures |c| == v.len
  {
    pool[v.base..v.base + v.len]
  }

  /** The bytes the vectors stand for, one after another. */
  function Joined(pool: seq<char>, vs: seq<Vector>): seq<char>
    requires Within(vs, |pool|)
  {
    if vs == [] then [] else Chunk(pool, vs[0]) + Joined(pool, vs[1..])
  }

  lemma Regroup(a: seq<char>, b: seq<char>, c: seq<char>)
    ensures a + (b + c) == (a + b) + c
  {
  }

  lemma {:induction false} JoinedConcat(pool: seq<char>, a: seq<Vector>, b: seq<Vector>)
    requires Within(a, |pool|) && Within(b, |pool|)
    ensures Within(a + b, |pool|) && Joined(pool, a + b) == Joined(pool, a) + Joined(pool, b)
  {
    if a == [] {
      assert a + b == b;
    } else {
      JoinedConcat(pool, a[1..], b);
      assert (a + b)[0] == a[0] && (a + b)[1..] == a[1..] + b;
      Regroup(Chunk(pool, a[0]), Joined(pool, a[1..]), Joined(pool, b));
    }
  }

  lemma ChunkKept(pool: seq<char>, pool': seq<char>, v: Vector, used: nat)
    requires used <= |pool| == |pool'| && pool'[..used] == pool[..used] && v.base + v.len <= used
    ensures Chunk(pool', v) == Chunk(pool, v)
  {
    assert pool[v.base..v.base + v.len] == pool[..used][v.base..v.base + v.len];
    assert pool'[v.base..v.base + v.len] == pool'[..used][v.base..v.base + v.len];
  }

  /** Only the used part of the pool matters. */
  lemma {:induction false} JoinedKept(pool: seq<char>, pool': seq<char>, vs: seq<Vector>, used: nat)
    requires used <= |pool| == |pool'| && pool'[..used] == pool[..used] && Within(vs, used)
    ensures Joined(pool', vs) == Joined(pool, vs)
  {
    if vs != [] {
      JoinedKept(pool, pool', vs[1..], used);
      ChunkKept(pool, pool', vs[0], used);
    }
  }

  // ---------------------------------------------------------------- dropping what was written

  /** The vectors that remain after a number of bytes were taken from the front. */
  function Dropped(vs: seq<Vector>, bytes: nat): seq<Vector>
    decreases |vs|
  {
    if bytes == 0 || vs == [] then vs
    else if bytes >= vs[0].len then Dropped(vs[1..], bytes - vs[0].len)
    else [Vector(vs[0].base + bytes, vs[0].len - bytes)] + vs[1..]
  }

  lemma DropJoined(head: seq<char>, rest: seq<char>, n: nat)
    requires n <= |head| + |rest|
    ensures (head + rest)[n..] == if n >= |head| then rest[n - |head|..] else head[n..] + rest
  {
  }

  lemma ChunkCut(pool: seq<char>, v: Vector, n: nat)
    requires v.base + v.len <= |pool| && n <= v.len
    ensures Chunk(pool, Vector(v.base + n, v.len - n)) == Chunk(pool, v)[n..]
  {
  }

  lemma JoinedFirst(pool: seq<char>, v: Vector, rest: seq<Vector>)
    requires v.base + v.len <= |pool| && Within(rest, |pool|)
    ensures Within([v] + rest, |pool|) && Joined(pool, [v] + rest) == Chunk(pool, v) + Joined(pool, rest)
  {
    assert ([v] + rest)[1..] == rest;
  }

  lemma DropWhole(pool: seq<char>, vs: seq<Vector>, bytes: nat)
    requires Within(vs, |pool|) && vs != [] && 0 < bytes && vs[0].len <= bytes <= |Joined(pool, vs)|
    ensures bytes - vs[0].len <= |Joined(pool, vs[1..])| && Dropped(vs, bytes) == Dropped(vs[1..], bytes - vs[0].len)
    ensures Joined(pool, vs)[bytes..] == Joined(pool, vs[1..])[bytes - vs[0].len..]
  {
    DropJoined(Chunk(pool, vs[0]), Joined(pool, vs[1..]), bytes);
  }

  lemma DropPart(pool: seq<char>, vs: seq<Vector>, bytes: nat)
    requires Within(vs, |pool|) && vs != [] && 0 < bytes < vs[0].len && bytes <= |Joined(pool, vs)|
    ensures Within(Dropped(vs, bytes), |pool|) && Joined(pool, Dropped(vs, bytes)) == Joined(pool, vs)[bytes..]
  {
    var v, tail := vs[0], vs[1..];
    var head, rest := Chunk(pool, v), Joined(pool, tail);
    var short := Vector(v.base + bytes, v.len - bytes);
    assert Joined(pool, vs) == head + rest && Dropped(vs, bytes) == [short] + tail;
    JoinedFirst(pool, short, tail);
    ChunkCut(pool, v, bytes);
    DropJoined(head, rest, bytes);
  }

  /** Dropping takes exactly that many bytes off the front. */
  lemma {:induction false} DroppedBytes(pool: seq<char>, vs: seq<Vector>, bytes: nat)
    requires Within(vs, |pool|) && bytes <= |Joined(pool, vs)|
    ensures Within(Dropped(vs, bytes), |pool|) && Joined(pool, Dropped(vs, bytes)) == Joined(pool, vs)[bytes..]
    ensures |Dropped(vs, bytes)| <= |vs|
    decreases |vs|
  {
    if bytes != 0 && vs != [] {
      if bytes >= vs[0].len {
        DropWhole(pool, vs, bytes);
        DroppedBytes(pool, vs[1..], bytes - vs[0].len);
      } else {
        DropPart(pool, vs, bytes);
      }
    }
  }

  // ---------------------------------------------------------------- the buffer

  class Output {
    const pool: array<char>
    const vecs: array<Vector>
    var count: nat
    var total: nat
    var used: nat
    var autoFlush: bool
    ghost var emitted: seq<char>

    ghost predicate Valid()
      reads this, pool, vecs
    {
      && pool.Length == POOL_SIZE && vecs.Length == MAX_VECTORS
      && count <= MAX_VECTORS && used <= POOL_SIZE && Within(vecs[..count], used) && (count == 0 ==> used == 0)
      && total == |Joined(pool[..], vecs[..count])|
    }

    ghost function Buffered(): seq<char>
      requires Valid()
      reads this, pool, vecs
    {
      Joined(pool[..], vecs[..count])
    }

    constructor ()
      ensures Valid() && fresh(pool) && fresh(vecs) && Buffered() == [] && emitted == []
    {
      pool := new char[POOL_SIZE](_ => '\0');
      vecs := new Vector[MAX_VECTORS](_ => Vector(0, 0));
      count, total, used, autoFlush := 0, 0, 0, true;
      emitted := [];
    }

    /** Moves the vectors from i on to the front. */
    method Shift(i: nat, n: nat)
      requires i <= n <= vecs.Length
      modifies vecs
      ensures vecs[..n - i] == old(vecs[i..n])
    {
      ghost var was := vecs[..];
      var k := 0;
      while k < n - i
        invariant 0 <= k <= n - i
        invariant forall j | 0 <= j < k :: vecs[j] == was[j + i]
        invariant forall j | k <= j < vecs.Length :: vecs[j] == was[j]
      {
        vecs[k] := vecs[k + i];
        k := k + 1;
      }
      assert forall j | 0 <= j < n - i :: vecs[..n - i][j] == was[i..n][j];
    }

    method Advance(n: nat, bytes: nat) returns (m: nat)
      requires n <= vecs.Length
      modifies vecs
      ensures m <= n && vecs[..m] == Dropped(old(vecs[..n]), bytes)
    {
      if bytes == 0 || n == 0 {
        return n;
      }
      var remaining, i := bytes, 0;
      assert vecs[0..n] == vecs[..n];
      while remaining > 0 && i < n
        invariant 0 <= i <= n && remaining >= 0
        invariant Dropped(vecs[i..n], remaining) == Dropped(old(vecs[..n]), bytes)
        decreases remaining, n - i
      {
        ghost var before := vecs[i..n];
        assert before[1..] == vecs[i + 1..n];
        if remaining >= vecs[i].len {
          remaining := remaining - vecs[i].len;
          i := i + 1;
        } else {
          vecs[i] := Vector(vecs[i].base + remaining, vecs[i].len - remaining);
          remaining := 0;
          assert vecs[i..n] == [vecs[i]] + before[1..];
        }
      }
      assert vecs[i..n] == Dropped(old(vecs[..n]), bytes);
      m := n;
      if i > 0 {
        Shift(i, n);
        m := n - i;
      } else {
        assert vecs[0..n] == vecs[..n];
      }
    }

    method Remaining(n: nat) returns (t: nat)
      requires n <= vecs.Length && Within(vecs[..n], pool.Length)
      ensures t == |Joined(pool[..], vecs[..n])|
    {
      t := 0;
      var i := 0;
      assert vecs[..0] == [];
      while i < n
        invariant 0 <= i <= n && t == |Joined(pool[..], vecs[..i])|
      {
        JoinedConcat(pool[..], vecs[..i], [vecs[i]]);
        assert vecs[..i + 1] == vecs[..i] + [vecs[i]];
        assert [vecs[i]][1..] == [];
        t := t + vecs[i].len;
        i := i + 1;
      }
    }

    /** The first n vectors hold what is left of all but the first `done` bytes. */
    ghost predicate Pending(n: nat, all: seq<char>, done: nat)
      reads pool, vecs
    {
      && n <= vecs.Length && done <= |all| && Within(vecs[..n], pool.Length)
      && Joined(pool[..], vecs[..n]) == all[done..]
    }

    /** The system took some bytes: they are emitted and dropped from the vectors. */
    method Take(n: nat, taken: nat, ghost all: seq<char>, ghost done: nat) returns (m: nat)
      requires Pending(n, all, done) && taken <= |all| - done
      modifies vecs, this`emitted
      ensures m <= n && Pending(m, all, done + taken)
      ensures emitted == old(emitted) + all[done..done + taken]
    {
      DroppedBytes(pool[..], vecs[..n], taken);
      emitted := emitted + all[done..done + taken];
      m := Advance(n, taken);
      assert all[done..][taken..] == all[done + taken..];
    }

    /** A call that wrote something, never more than there was. */
    method Progress(n: nat, bytes: nat, rest: nat, ghost all: seq<char>, ghost done: nat) returns (m: nat, ghost more: nat)
      requires Pending(n, all, done) && rest == |all| - done && 0 < bytes && 0 < rest
      modifies vecs, this`emitted
      ensures m <= n && Pending(m, all, more) && done < more <= |all|
      ensures emitted == old(emitted) + all[done..more]
    {
      var taken := if bytes <= rest then bytes else rest;
      m := Take(n, taken, all, done);
      more := done + taken;
    }

    lemma Extended(before: seq<char>, all: seq<char>, done: nat, more: nat)
      requires done <= more <= |all|
      ensures before + all[..done] + all[done..more] == before + all[..more]
    {
      assert all[..done] + all[done..more] == all[..more];
    }

    /** Repeats the system call until everything is written; after the listed outcomes calls succeed in full. */
    method WriteAll(outcomes: seq<Outcome>) returns (ok: bool, ghost done: nat)
      requires Valid()
      modifies vecs, this`emitted
      ensures done <= |old(Buffered())| && emitted == old(emitted) + old(Buffered())[..done]
      ensures ok || (Failed !in outcomes && Wrote(0) !in outcomes) ==> done == |old(Buffered())|
    {
      var n, k := count, 0;
      ghost var all := Buffered();
      done := 0;
      ok := true;
      while n > 0
        invariant 0 <= n <= MAX_VECTORS && 0 <= k <= |outcomes| && Pending(n, all, done)
        invariant emitted == old(emitted) + all[..done]
        decreases |outcomes| - k, |all| - done
      {
        var rest := Remaining(n);
        var o := if k < |outcomes| then outcomes[k] else Wrote(rest);
        if k < |outcomes| {
          k := k + 1;
        }
        if o.Failed? {
          return false, done;
        }
        if o.Wrote? {
          if o.bytes == 0 || rest == 0 {
            return false, done;
          }
          ghost var was := done;
          n, done := Progress(n, o.bytes, rest, all, done);
          Extended(old(emitted), all, was, done);
        }
      }
    }

    /** Empties the buffer; only a hard error, which no caller sees, loses bytes. */
    method Flush(outcomes: seq<Outcome>)
      requires Valid()
      modifies this, vecs
      ensures Valid() && Buffered() == [] && autoFlush == old(autoFlush) && used == 0 && count == 0
      ensures Failed !in outcomes && Wrote(0) !in outcomes ==> emitted == old(emitted) + old(Buffered())
      ensures old(emitted) <= emitted <= old(emitted) + old(Buffered())
    {
      if count == 0 {
        return;
      }
      ghost var all := Buffered();
      var ok, done := WriteAll(outcomes);
      assert all[..|all|] == all;
      count, total, used := 0, 0, 0;
    }

    /** Copies the bytes into the pool behind what is used and adds their vector. */
    method Append(data: seq<char>)
      requires Valid() && count < MAX_VECTORS && used + |data| <= POOL_SIZE
      modifies pool, vecs, this`count, this`total, this`used
      ensures Valid() && Buffered() == old(Buffered()) + data && count == old(count) + 1
    {
      ghost var was, listed := pool[..], vecs[..count];
      var i := 0;
      while i < |data|
        invariant 0 <= i <= |data| && used == old(used) && count == old(count) && total == old(total)
        invariant vecs[..count] == listed
        invariant forall j | 0 <= j < used :: pool[j] == was[j]
        invariant forall j | 0 <= j < i :: pool[used + j] == data[j]
      {
        pool[used + i] := data[i];
        i := i + 1;
      }
      vecs[count] := Vector(used, |data|);
      AppendedBytes(was, pool[..], listed, used, data);
      assert vecs[..count + 1] == listed + [Vector(used, |data|)];
      count := count + 1;
      total := total + |data|;
      used := used + |data|;
    }

    /** One write: what was emitted and what is buffered together grow by exactly its bytes. */
    method Write(data: seq<char>, first: seq<Outcome>, second: seq<Outcome>)
      requires Valid() && |data| <= POOL_SIZE
      modifies this, pool, vecs
      ensures Valid() && autoFlush == old(autoFlush)
      ensures Failed !in first + second && Wrote(0) !in first + second ==>
                emitted + Buffered() == old(emitted) + old(Buffered()) + data
      ensures old(count) < 63 && old(used) + |data| <= 8192 && old(|Buffered()|) + |data| < 4096 ==>
                emitted == old(emitted) && Buffered() == old(Buffered()) + data
      ensures autoFlush ==> count < 64 && |Buffered()| < 4096
    {
      if count >= MAX_VECTORS || used + |data| > POOL_SIZE {
        Flush(first);
      }
      Append(data);
      if autoFlush && (count >= FLUSH_VECTORS || total >= FLUSH_BYTES) {
        Flush(second);
      }
    }
  }

  lemma AppendedBytes(was: seq<char>, now: seq<char>, vs: seq<Vector>, used: nat, data: seq<char>)
    requires used + |data| <= |was| == |now| && Within(vs, used)
    requires forall j | 0 <= j < used :: now[j] == was[j]
    requires forall j | 0 <= j < |data| :: now[used + j] == data[j]
    ensures Within(vs + [Vector(used, |data|)], used + |data|)
    ensures Joined(now, vs + [Vector(used, |data|)]) == Joined(was, vs) + data
  {
    var v := Vector(used, |data|);
    assert now[..used] == was[..used];
    JoinedKept(was, now, vs, used);
    JoinedConcat(now, vs, [v]);
    assert now[used..used + |data|] == data;
    assert Joined(now, [v]) == data by {
      assert [v][1..] == [];
    }
  }

  /** A series of writes, with what the system does in each. */
  datatype Request = Request(data: seq<char>, first: seq<Outcome>, second: seq<Outcome>)

  function AllData(requests: seq<Request>): seq<char> {
    if requests == [] then [] else AllData(requests[..|requests| - 1]) + requests[|requests| - 1].data
  }

  ghost predicate NoHardError(r: Request) {
    |r.data| <= POOL_SIZE && Failed !in r.first + r.second && Wrote(0) !in r.first + r.second
  }

  lemma DataNext(requests: seq<Request>, i: nat)
    requires i < |requests|
    ensures AllData(requests[..i + 1]) == AllData(requests[..i]) + requests[i].data
  {
    assert requests[..i + 1][..i] == requests[..i];
  }

  /** Through any series of writes, short writes and interruptions, nothing is lost, repeated or reordered. */
  method WriteSeries(o: Output, requests: seq<Request>)
    requires o.Valid() && forall r | r in requests :: NoHardError(r)
    modifies o, o.pool, o.vecs
    ensures o.Valid() && o.emitted + o.Buffered() == old(o.emitted) + old(o.Buffered()) + AllData(requests)
  {
    var i := 0;
    assert requests[..|requests|] == requests;
    while i < |requests|
      invariant 0 <= i <= |requests| && o.Valid()
      invariant o.emitted + o.Buffered() == old(o.emitted) + old(o.Buffered()) + AllData(requests[..i])
    {
      var r := requests[i];
      assert r in requests;
      o.Write(r.data, r.first, r.second);
      DataNext(requests, i);
      i := i + 1;
    }
  }
}
