/** The slice ring of the allocation-history writer, as a value: what each section under the
    write mutex does to it (media_lib_mem_his.c:77-128). */
module SliceRing {
  import opened Arithmetic
  import opened Bytes

  /** (h + j) % k, for a cursor that wraps at most once. */
  function Slot(k: nat, h: nat, j: nat): (s: nat)
    requires h < k && j <= k
    ensures s < k
  {
    if h + j < k then h + j else h + j - k
  }

  lemma SlotIsModulo(k: nat, h: nat, j: nat)
    requires h < k && j <= k
    ensures Slot(k, h, j) == (h + j) % k
  {
    WrapOnce(h + j, k);
  }

  /** save_his_t's slices and cursors; SAVE_SLICE_NUM is |slices|. */
  datatype Ring = Ring(slices: seq<seq<byte>>, size: nat, filled: nat, wp: nat, n: nat)
  {
    predicate Valid() {
      && 0 < |slices| && 0 < size
      && (forall i :: 0 <= i < |slices| ==> |slices[i]| == size)
      && wp < |slices| && n <= |slices| && filled < size
      && (n == |slices| ==> filled == 0)
    }

    /** The oldest completed slice, as the saver computes it. */
    function Head(): nat
      requires wp < |slices| && n <= |slices|
    {
      Slot(|slices|, wp, |slices| - n)
    }

    /** The bytes of m consecutive slices from slot h, going round the ring. */
    function Span(h: nat, m: nat): seq<byte>
      requires h < |slices|
      decreases m
    {
      if m == 0 then [] else slices[h] + Span(Slot(|slices|, h, 1), m - 1)
    }

    /** Everything the ring holds, oldest first: completed slices, then the partial one. */
    function Stored(): seq<byte>
      requires Valid()
    {
      Span(Head(), n) + slices[wp][..filled]
    }

    /** One locked pass of his_write; returns the bytes still to be written. The code's test that the
        slice has room never fails: filled < size. */
    function Fill(buf: seq<byte>): (Ring, seq<byte>)
      requires Valid()
    {
      var left := size - filled;
      var fill := if left > |buf| then |buf| else left;
      var slice := slices[wp][..filled] + buf[..fill] + slices[wp][filled + fill..];
      if left > fill then
        (this.(slices := slices[wp := slice], filled := filled + fill), [])
      else
        (this.(slices := slices[wp := slice], filled := 0, wp := Slot(|slices|, wp, 1), n := n + 1), buf[fill..])
    }

    /** The saver's locked n--. */
    function Retire(): Ring
      requires n > 0
    {
      this.(n := n - 1)
    }
  }

  /** r' has every one of the m slices of r from slot h on. */
  ghost predicate SameSlices(r: Ring, r': Ring, h: nat, m: nat)
    requires h < |r.slices| && m <= |r.slices|
  {
    && |r'.slices| == |r.slices|
    && forall j :: 0 <= j < m ==> r'.slices[Slot(|r.slices|, h, j)] == r.slices[Slot(|r.slices|, h, j)]
  }

  /** A span grows at its far end by the slot that follows it. */
  lemma {:induction false} SpanSnoc(r: Ring, h: nat, m: nat)
    requires h < |r.slices| && m < |r.slices|
    ensures r.Span(h, m + 1) == r.Span(h, m) + r.slices[Slot(|r.slices|, h, m)]
    decreases m
  {
    var h' := Slot(|r.slices|, h, 1);
    if m > 0 {
      SpanSnoc(r, h', m - 1);
      assert Slot(|r.slices|, h', m - 1) == Slot(|r.slices|, h, m);
    } else {
      assert r.Span(h', 0) == [];
      assert Slot(|r.slices|, h, 0) == h;
    }
  }

  /** A span depends only on its own slots. */
  lemma {:induction false} SpanFrame(r: Ring, r': Ring, h: nat, m: nat)
    requires h < |r.slices| && m <= |r.slices| && SameSlices(r, r', h, m)
    ensures r.Span(h, m) == r'.Span(h, m)
    decreases m
  {
    var k := |r.slices|;
    if m > 0 {
      var h' := Slot(k, h, 1);
      assert Slot(k, h, 0) == h;
      forall j | 0 <= j < m - 1
        ensures r'.slices[Slot(k, h', j)] == r.slices[Slot(k, h', j)]
      {
        assert Slot(k, h', j) == Slot(k, h, j + 1);
      }
      SpanFrame(r, r', h', m - 1);
    }
  }

  lemma {:induction false} SpanLength(r: Ring, h: nat, m: nat)
    requires r.Valid() && h < |r.slices|
    ensures |r.Span(h, m)| == m * r.size
    decreases m
  {
    if m > 0 {
      SpanLength(r, Slot(|r.slices|, h, 1), m - 1);
      OneMoreMultiple(m - 1, r.size);
    }
  }

  lemma StoredLength(r: Ring)
    requires r.Valid()
    ensures |r.Stored()| == r.n * r.size + r.filled
  {
    SpanLength(r, r.Head(), r.n);
  }

  /** While a slot is free, a locked pass leaves every completed slice, and the index of the
      oldest one, as they were: no slot is lost to the producer before the saver retires it. */
  lemma FillKeepsCompletedSlices(r: Ring, buf: seq<byte>)
    requires r.Valid() && r.n < |r.slices|
    ensures var r' := r.Fill(buf).0;
            && SameSlices(r, r', r.Head(), r.n)
            && r'.wp < |r'.slices| && r'.n <= |r'.slices|
            && r'.Head() == r.Head()
  {
    forall j | 0 <= j < r.n
      ensures Slot(|r.slices|, r.Head(), j) != r.wp
    {
    }
  }

  /** While a slot is free, a locked pass moves bytes from the front of the buffer to the end of
      what the ring holds: none lost, none repeated, order kept. */
  lemma FillAppends(r: Ring, buf: seq<byte>)
    requires r.Valid() && r.n < |r.slices| && buf != []
    ensures var (r', rest) := r.Fill(buf);
            && r'.Valid() && r'.size == r.size && |rest| < |buf|
            && r'.Stored() + rest == r.Stored() + buf
  {
    var (r', rest) := r.Fill(buf);
    FillKeepsCompletedSlices(r, buf);
    SpanFrame(r, r', r.Head(), r.n);
    var left := r.size - r.filled;
    if left > |buf| {
      assert r'.slices[r'.wp][..r'.filled] == r.slices[r.wp][..r.filled] + buf;
    } else {
      SpanSnoc(r', r.Head(), r.n);
      assert Slot(|r.slices|, r.Head(), r.n) == r.wp;
      assert r'.slices[r.wp] == r.slices[r.wp][..r.filled] + buf[..left];
      assert r'.slices[r'.wp][..0] == [];
      assert buf == buf[..left] + rest;
    }
  }

  /** Decrementing n removes exactly the oldest slice from what the ring holds. */
  lemma RetireDropsOldest(r: Ring)
    requires r.Valid() && r.n > 0
    ensures r.Retire().Valid()
    ensures r.Stored() == r.slices[r.Head()] + r.Retire().Stored()
  {
    var r' := r.Retire();
    assert Slot(|r.slices|, r.Head(), 1) == r'.Head();
    SpanFrame(r, r', r'.Head(), r'.n);
  }

  /** his_wait_for_enough's test. */
  predicate HasRoom(r: Ring, size: nat) {
    r.n < |r.slices| || r.filled + size <= r.size
  }

  /** A record is refused exactly when the ring is full and the record exceeds a slice, so no
      record that fits a slice is ever dropped. */
  lemma RefusedOnlyWhenOversized(r: Ring, size: nat)
    requires r.Valid()
    ensures HasRoom(r, size) <==> r.n < |r.slices| || size <= r.size
  {
  }
}
