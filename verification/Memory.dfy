/** Byte-wise memory primitives (src/b32_string.cpp) on one flat memory. */
module Memory {
  import opened Words

  // ---------------------------------------------------------------- memcpy

  /** What the forward byte loop leaves behind, overlapping or not. */
  function ForwardCopy(m: seq<Byte>, dest: nat, src: nat, count: nat): (r: seq<Byte>)
    requires dest + count <= |m| && src + count <= |m|
    ensures |r| == |m|
    decreases count
  {
    if count == 0 then m else ForwardCopy(m[dest := m[src]], dest + 1, src + 1, count - 1)
  }

  /** A copy that reads all of the source before it writes. */
  function Move(m: seq<Byte>, dest: nat, src: nat, count: nat): (r: seq<Byte>)
    requires dest + count <= |m| && src + count <= |m|
    ensures |r| == |m|
    ensures forall i :: 0 <= i < |m| ==> r[i] == if dest <= i < dest + count then m[src + (i - dest)] else m[i]
  {
    m[..dest] + m[src..src + count] + m[dest + count..]
  }

  method Memcpy(mem: array<Byte>, dest: nat, src: nat, count: nat)
    requires dest + count <= mem.Length && src + count <= mem.Length
    modifies mem
    ensures mem[..] == ForwardCopy(old(mem[..]), dest, src, count)
  {
    var p1, p2, left := dest, src, count;
    while left > 0
      invariant p1 + left == dest + count && p2 + left == src + count
      invariant ForwardCopy(mem[..], p1, p2, left) == ForwardCopy(old(mem[..]), dest, src, count)
    {
      ghost var before := mem[..];
      mem[p1] := mem[p2];
      assert mem[..] == before[p1 := before[p2]];
      p1, p2, left := p1 + 1, p2 + 1, left - 1;
    }
  }

  lemma {:induction false} ForwardCopyDownAt(m: seq<Byte>, dest: nat, src: nat, count: nat, i: nat)
    requires dest <= src && src + count <= |m| && i < |m|
    ensures ForwardCopy(m, dest, src, count)[i] == if dest <= i < dest + count then m[src + (i - dest)] else m[i]
    decreases count
  {
    if count > 0 {
      ForwardCopyDownAt(m[dest := m[src]], dest + 1, src + 1, count - 1, i);
    }
  }

  /** Copying downwards is safe however far source and destination overlap. */
  lemma ForwardCopyDown(m: seq<Byte>, dest: nat, src: nat, count: nat)
    requires dest <= src && src + count <= |m|
    ensures ForwardCopy(m, dest, src, count) == Move(m, dest, src, count)
  {
    forall i | 0 <= i < |m| ensures ForwardCopy(m, dest, src, count)[i] == Move(m, dest, src, count)[i] {
      ForwardCopyDownAt(m, dest, src, count, i);
    }
  }

  lemma {:induction false} ForwardCopyKeeps(m: seq<Byte>, dest: nat, src: nat, count: nat, i: nat)
    requires dest + count <= |m| && src + count <= |m| && i < |m|
    requires i < dest || dest + count <= i
    ensures ForwardCopy(m, dest, src, count)[i] == m[i]
    decreases count
  {
    if count > 0 {
      ForwardCopyKeeps(m[dest := m[src]], dest + 1, src + 1, count - 1, i);
    }
  }

  /** Copying upwards onto the source repeats its first `dest - src` bytes instead ... */
  lemma {:induction false} ForwardCopyUp(m: seq<Byte>, dest: nat, src: nat, count: nat, i: nat)
    requires src < dest && dest + count <= |m| && i < count
    ensures var r, gap := ForwardCopy(m, dest, src, count), dest - src;
            r[dest + i] == if i < gap then m[src + i] else r[dest + i - gap]
    decreases count
  {
    var m' := m[dest := m[src]];
    ForwardCopyKeeps(m', dest + 1, src + 1, count - 1, dest);
    if i > 0 {
      ForwardCopyUp(m', dest + 1, src + 1, count - 1, i - 1);
    }
  }

  ghost predicate Periodic(m: seq<Byte>, src: nat, count: nat, gap: nat)
    requires src + count <= |m|
  {
    forall j :: src + gap <= j < src + count ==> m[j] == m[j - gap]
  }

  lemma {:induction false} PeriodicCopy(m: seq<Byte>, dest: nat, src: nat, count: nat, i: nat)
    requires src < dest && dest + count <= |m| && i < count && Periodic(m, src, count, dest - src)
    ensures ForwardCopy(m, dest, src, count)[dest + i] == m[src + i]
    decreases i
  {
    ForwardCopyUp(m, dest, src, count, i);
    if i >= dest - src {
      PeriodicCopy(m, dest, src, count, i - (dest - src));
    }
  }

  lemma PeriodicMove(m: seq<Byte>, dest: nat, src: nat, count: nat)
    requires src < dest && dest + count <= |m| && Periodic(m, src, count, dest - src)
    ensures ForwardCopy(m, dest, src, count) == Move(m, dest, src, count)
  {
    forall i | 0 <= i < |m| ensures ForwardCopy(m, dest, src, count)[i] == Move(m, dest, src, count)[i] {
      if dest <= i < dest + count {
        PeriodicCopy(m, dest, src, count, i - dest);
      } else {
        ForwardCopyKeeps(m, dest, src, count, i);
      }
    }
  }

  lemma BrokenPeriod(m: seq<Byte>, dest: nat, src: nat, count: nat, j: nat)
    requires src < dest && dest + count <= |m| && dest <= j < src + count && m[j] != m[j - (dest - src)]
    ensures ForwardCopy(m, dest, src, count) != Move(m, dest, src, count)
  {
    ForwardCopyUp(m, dest, src, count, j - src);
    var a, b, gap := ForwardCopy(m, dest, src, count), Move(m, dest, src, count), dest - src;
    assert a[j + gap] == a[j];
    assert b[j + gap] == m[j] && b[j] == m[j - gap];
  }

  /** ... so the loop is a move exactly when it copies down or the source repeats itself that way. */
  lemma ForwardCopyIsMoveIff(m: seq<Byte>, dest: nat, src: nat, count: nat)
    requires dest + count <= |m| && src + count <= |m|
    ensures ForwardCopy(m, dest, src, count) == Move(m, dest, src, count)
            <==> dest <= src || Periodic(m, src, count, dest - src)
  {
    if dest <= src {
      ForwardCopyDown(m, dest, src, count);
    } else if Periodic(m, src, count, dest - src) {
      PeriodicMove(m, dest, src, count);
    } else {
      var j :| src + (dest - src) <= j < src + count && m[j] != m[j - (dest - src)];
      BrokenPeriod(m, dest, src, count, j);
    }
  }

  /** Two bytes copied up by one: the first is written over the second before that is read. */
  lemma UpwardCopyFails()
    ensures ForwardCopy([1, 2, 3], 1, 0, 2) == [1, 1, 1]
    ensures Move([1, 2, 3], 1, 0, 2) == [1, 1, 2]
  {
    var m: seq<Byte> := [1, 2, 3];
    ForwardCopyUp(m, 1, 0, 2, 0);
    ForwardCopyUp(m, 1, 0, 2, 1);
    ForwardCopyKeeps(m, 1, 0, 2, 0);
    var r := ForwardCopy(m, 1, 0, 2);
    assert r[0] == 1 && r[1 + 0] == 1 && r[1 + 1] == 1;
  }

  // ---------------------------------------------------------------- zeromem

  function Zeroed(m: seq<Byte>, dest: nat, count: nat): (r: seq<Byte>)
    requires dest + count <= |m|
    ensures |r| == |m|
    ensures forall i :: 0 <= i < |m| ==> r[i] == if dest <= i < dest + count then 0 else m[i]
  {
    m[..dest] + seq(count, _ => 0) + m[dest + count..]
  }

  /** Whole words first, then the remaining bytes. */
  method Zeromem(mem: array<Byte>, dest: nat, count: nat)
    requires dest + count <= mem.Length
    modifies mem
    ensures mem[..] == Zeroed(old(mem[..]), dest, count)
    ensures forall i :: 0 <= i < mem.Length ==> mem[i] == if dest <= i < dest + count then 0 else old(mem[i])
  {
    var words, remainder := count / 4, count % 4;
    for i := 0 to words
      invariant forall j :: dest <= j < dest + 4 * i ==> mem[j] == 0
      invariant forall j :: 0 <= j < mem.Length && !(dest <= j < dest + 4 * i) ==> mem[j] == old(mem[j])
    {
      var at := dest + 4 * i;
      mem[at], mem[at + 1], mem[at + 2], mem[at + 3] := 0, 0, 0, 0;
    }
    if remainder > 0 {
      var rest := dest + words * 4;
      for i := 0 to remainder
        invariant forall j :: dest <= j < rest + i ==> mem[j] == 0
        invariant forall j :: 0 <= j < mem.Length && !(dest <= j < rest + i) ==> mem[j] == old(mem[j])
      {
        mem[rest + i] := 0;
      }
    }
  }
}
