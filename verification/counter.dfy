/**
 Counting printable characters (`printable_chars_counter`), folding a
 connection's histogram into the process total (`update_pcc_total`) and the
 report printed on shutdown (`print_printable_char_counter`).

 A printable character is a byte in [32, 126], space through tilde. A
 histogram has one bucket per printable character: bucket `i` counts the
 byte `i + 32`, so bucket 0 is ' ' and bucket 94 is '~'.
 */
module Counter {
  import opened Framing

  const MinPrintable: nat := 32
  const MaxPrintable: nat := 126
  const PrintableCount: nat := 95

  predicate IsPrintable(b: Byte) {
    MinPrintable <= b <= MaxPrintable
  }

  /** One bucket per printable character. */
  predicate IsHistogram(h: seq<nat>) {
    |h| == PrintableCount
  }

  function Sum(h: seq<nat>): nat {
    if |h| == 0 then 0 else h[0] + Sum(h[1..])
  }

  /** Adding one to a bucket adds one to the sum. */
  lemma {:induction false} SumIncrement(h: seq<nat>, k: nat)
    requires k < |h|
    ensures Sum(h[k := h[k] + 1]) == Sum(h) + 1
    decreases |h|
  {
    var h' := h[k := h[k] + 1];
    if k > 0 {
      assert h'[1..] == h[1..][k - 1 := h[k] + 1];
      SumIncrement(h[1..], k - 1);
    } else {
      assert h'[1..] == h[1..];
    }
  }

  /** The printable bytes of `data`, in order: the reference for what is counted. */
  function Printables(data: seq<Byte>): (p: seq<Byte>)
    ensures |p| <= |data|
    ensures forall k :: 0 <= k < |p| ==> IsPrintable(p[k])
    decreases |data|
  {
    if |data| == 0 then []
    else
      var last := data[|data| - 1];
      var init := data[..|data| - 1];
      assert data == init + [last];
      if IsPrintable(last) then Printables(init) + [last] else Printables(init)
  }

  /** `init_client_ppc`: every bucket cleared. */
  function EmptyHistogram(): (h: seq<nat>)
    ensures IsHistogram(h)
    ensures forall i :: 0 <= i < |h| ==> h[i] == 0
    ensures Sum(h) == 0
  {
    var h := seq(PrintableCount, i => 0);
    ZeroSum(h);
    h
  }

  lemma {:induction false} ZeroSum(h: seq<nat>)
    requires forall i :: 0 <= i < |h| ==> h[i] == 0
    ensures Sum(h) == 0
    decreases |h|
  {
    if |h| > 0 {
      ZeroSum(h[1..]);
    }
  }

  /** One step of the counting loop: a printable byte bumps its own bucket, any other byte nothing. */
  function Bump(h: seq<nat>, b: Byte): (h': seq<nat>)
    requires IsHistogram(h)
    ensures IsHistogram(h')
    ensures IsPrintable(b) ==> h'[b - MinPrintable] == h[b - MinPrintable] + 1 && Sum(h') == Sum(h) + 1
    ensures forall i :: 0 <= i < PrintableCount && i != b - MinPrintable ==> h'[i] == h[i]
    ensures !IsPrintable(b) ==> h' == h
  {
    if IsPrintable(b) then
      SumIncrement(h, b - MinPrintable);
      h[b - MinPrintable := h[b - MinPrintable] + 1]
    else h
  }

  /**
   The histogram `printable_chars_counter` leaves in `client_ppc`: it starts
   cleared and each byte in turn goes through `Bump`.
   */
  function Tally(data: seq<Byte>): (h: seq<nat>)
    ensures IsHistogram(h)
    decreases |data|
  {
    if |data| == 0 then EmptyHistogram()
    else Bump(Tally(data[..|data| - 1]), data[|data| - 1])
  }

  /** The buckets of a histogram add up to the number of printable bytes. */
  lemma {:induction false} TallySum(data: seq<Byte>)
    ensures Sum(Tally(data)) == |Printables(data)|
    decreases |data|
  {
    if |data| > 0 {
      TallySum(data[..|data| - 1]);
    }
  }

  /** Bucket `i` of the histogram holds the number of occurrences of the byte `i + 32`. */
  lemma {:induction false} TallyCounts(data: seq<Byte>)
    ensures forall i :: 0 <= i < PrintableCount ==> Tally(data)[i] == multiset(data)[i + MinPrintable]
    decreases |data|
  {
    if |data| > 0 {
      var last := data[|data| - 1];
      var init := data[..|data| - 1];
      assert data == init + [last];
      TallyCounts(init);
      assert multiset(data) == multiset(init) + multiset{last};
    }
  }

  /** Extending the input by one byte is one more step. */
  lemma {:induction false} TallyStep(data: seq<Byte>, i: nat)
    requires i < |data|
    ensures Tally(data[..i + 1]) == Bump(Tally(data[..i]), data[i])
  {
    assert data[..i + 1][..i] == data[..i];
  }

  /**
   `printable_chars_counter(data, len)`: clears the histogram, walks the
   bytes once and returns how many were printable.
   */
  method PrintableCharsCounter(data: seq<Byte>) returns (count: nat, ppc: seq<nat>)
    ensures IsHistogram(ppc)
    ensures forall i :: 0 <= i < PrintableCount ==> ppc[i] == multiset(data)[i + MinPrintable]
    ensures count == Sum(ppc)
    ensures count == |Printables(data)|
    ensures count <= |data|
  {
    ppc := EmptyHistogram();
    count := 0;
    var i := 0;
    assert data[..i] == [];
    while i < |data|
      invariant 0 <= i <= |data|
      invariant ppc == Tally(data[..i])
      invariant count == Sum(ppc)
    {
      TallyStep(data, i);
      var b := data[i];
      if MinPrintable <= b <= MaxPrintable {
        ppc, count := Bump(ppc, b), count + 1;
      }
      i := i + 1;
    }
    assert data[..i] == data;
    TallySum(data);
    TallyCounts(data);
  }

  /** The count `printable_chars_counter` returns, as a function. */
  function CountPrintable(data: seq<Byte>): (n: nat)
    ensures n <= |data|
    ensures n == Sum(Tally(data))
    ensures n == |data| <==> forall k :: 0 <= k < |data| ==> IsPrintable(data[k])
    ensures n == 0 <==> forall k :: 0 <= k < |data| ==> !IsPrintable(data[k])
  {
    PrintablesAll(data);
    TallySum(data);
    |Printables(data)|
  }

  lemma {:induction false} PrintablesAll(data: seq<Byte>)
    ensures |Printables(data)| == |data| <==> forall k :: 0 <= k < |data| ==> IsPrintable(data[k])
    ensures |Printables(data)| == 0 <==> forall k :: 0 <= k < |data| ==> !IsPrintable(data[k])
    decreases |data|
  {
    if |data| > 0 {
      var last := data[|data| - 1];
      var init := data[..|data| - 1];
      PrintablesAll(init);
      assert forall k :: 0 <= k < |init| ==> init[k] == data[k];
      if IsPrintable(last) {
        assert Printables(data) == Printables(init) + [last];
      } else {
        assert Printables(data) == Printables(init);
        assert !IsPrintable(data[|data| - 1]);
      }
    }
  }

  /** Counting is additive: a payload split in two counts as much as its halves. */
  lemma {:induction false} CountConcat(a: seq<Byte>, b: seq<Byte>)
    ensures CountPrintable(a + b) == CountPrintable(a) + CountPrintable(b)
    decreases |b|
  {
    if |b| == 0 {
      assert a + b == a;
    } else {
      var init := b[..|b| - 1];
      CountConcat(a, init);
      assert (a + b)[..|a + b| - 1] == a + init;
      assert (a + b)[|a + b| - 1] == b[|b| - 1];
    }
  }

  /** A single byte counts 1 exactly when it is printable. */
  lemma {:induction false} CountOne(b: Byte)
    ensures CountPrintable([b]) == if IsPrintable(b) then 1 else 0
  {
    assert [b][..0] == [];
  }

  /** Pointwise sum of two equally long count sequences. */
  function Add(a: seq<nat>, b: seq<nat>): (c: seq<nat>)
    requires |a| == |b|
    ensures |c| == |a|
    ensures forall i :: 0 <= i < |c| ==> c[i] == a[i] + b[i]
    ensures Sum(c) == Sum(a) + Sum(b)
    decreases |a|
  {
    if |a| == 0 then []
    else
      var rest := Add(a[1..], b[1..]);
      var c := [a[0] + b[0]] + rest;
      assert c[1..] == rest;
      c
  }

  /**
   `update_pcc_total`: each bucket of the total grows by the matching bucket
   of the connection's histogram.
   */
  function UpdateTotal(total: seq<nat>, ppc: seq<nat>): (t: seq<nat>)
    requires IsHistogram(total) && IsHistogram(ppc)
    ensures IsHistogram(t)
    ensures forall i :: 0 <= i < PrintableCount ==> t[i] == total[i] + ppc[i]
    ensures forall i :: 0 <= i < PrintableCount ==> t[i] >= total[i]
    ensures Sum(t) == Sum(total) + Sum(ppc)
  {
    Add(total, ppc)
  }

  /** Folding the histograms of two payloads gives the histogram of the two back to back. */
  lemma {:induction false} TallyConcat(a: seq<Byte>, b: seq<Byte>)
    ensures Tally(a + b) == UpdateTotal(Tally(a), Tally(b))
  {
    assert multiset(a + b) == multiset(a) + multiset(b);
    TallyCounts(a + b);
    TallyCounts(a);
    TallyCounts(b);
    var l, r := Tally(a + b), UpdateTotal(Tally(a), Tally(b));
    assert forall i :: 0 <= i < PrintableCount ==> l[i] == r[i];
  }

  /** The order in which two histograms are folded in does not matter. */
  lemma {:induction false} UpdateTotalCommutes(total: seq<nat>, p: seq<nat>, q: seq<nat>)
    requires IsHistogram(total) && IsHistogram(p) && IsHistogram(q)
    ensures UpdateTotal(UpdateTotal(total, p), q) == UpdateTotal(UpdateTotal(total, q), p)
  {
    var l, r := UpdateTotal(UpdateTotal(total, p), q), UpdateTotal(UpdateTotal(total, q), p);
    assert forall i :: 0 <= i < PrintableCount ==> l[i] == r[i];
  }

  /** One line of the shutdown report: `char '<ch>' : <times> times`. */
  datatype Line = Line(ch: char, times: nat)

  /**
   `print_printable_char_counter`: one line per printable character, in
   ascending order, each with its total.
   */
  function Report(total: seq<nat>): (r: seq<Line>)
    requires IsHistogram(total)
    ensures |r| == PrintableCount
    ensures forall i, j :: 0 <= i < j < |r| ==> r[i].ch < r[j].ch
    ensures forall i :: 0 <= i < |r| ==> MinPrintable <= r[i].ch as int <= MaxPrintable
    ensures forall i :: 0 <= i < |r| ==> r[i].times == total[r[i].ch as int - MinPrintable]
  {
    seq(PrintableCount, i requires 0 <= i < PrintableCount => Line((i + MinPrintable) as char, total[i]))
  }

  /** Every printable character has its line in the report. */
  lemma {:induction false} ReportCoversPrintables(total: seq<nat>, c: Byte)
    requires IsHistogram(total)
    requires IsPrintable(c)
    ensures exists i :: 0 <= i < |Report(total)| && Report(total)[i] == Line(c as char, total[c - MinPrintable])
  {
    var r := Report(total);
    assert r[c - MinPrintable].ch == c as char;
  }
}
