/** The HTTP/2 section of the status handler (lib/handler/status/http2.c):
    `init` allocates two zeroed 64-bit counters, `per_thread` adds one
    worker's push and HPACK-eviction counts to them, and `final` renders the
    totals as a JSON fragment into a 128-byte buffer with `snprintf`. The
    mutex around each step is left out: every step is atomic here. */
module Http2Status {
  import opened Decimal

  const Two64: nat := 0x1_0000_0000_0000_0000

  type uint64 = x: int | 0 <= x < Two64

  /** `struct st_http2_status_ctx_t` without its mutex. */
  datatype StatusCtx = StatusCtx(h2Pushes: uint64, h2HpackEvictions: uint64)

  /** The two counters of one worker's `ctx->http2.stats` that are summed. */
  datatype ThreadStats = ThreadStats(pushes: uint64, hpackEvictions: uint64)

  /** `http2_status_init`: both counters start at zero. */
  function Init(): (r: StatusCtx)
    ensures r.h2Pushes == 0 && r.h2HpackEvictions == 0
  {
    StatusCtx(0, 0)
  }

  /** C's `+` on `uint64_t`: the carry out of bit 63 is lost. */
  function AddU64(a: uint64, b: uint64): (r: uint64)
    ensures r == (a + b) % Two64
    ensures a + b < Two64 ==> r == a + b
  {
    if a + b < Two64 then a + b else a + b - Two64
  }

  /** `http2_status_per_thread`: add one worker's counts, each modulo 2^64. */
  function PerThread(hsc: StatusCtx, ts: ThreadStats): (r: StatusCtx)
    ensures r.h2Pushes == (hsc.h2Pushes + ts.pushes) % Two64
    ensures r.h2HpackEvictions == (hsc.h2HpackEvictions + ts.hpackEvictions) % Two64
  {
    StatusCtx(AddU64(hsc.h2Pushes, ts.pushes), AddU64(hsc.h2HpackEvictions, ts.hpackEvictions))
  }

  /** `init` followed by `per_thread` for each worker in turn. */
  function Rollup(ts: seq<ThreadStats>): StatusCtx
  {
    if |ts| == 0 then Init() else PerThread(Rollup(ts[..|ts| - 1]), ts[|ts| - 1])
  }

  datatype Counter = Pushes | HpackEvictions

  function Get(t: ThreadStats, c: Counter): uint64
  {
    match c
    case Pushes => t.pushes
    case HpackEvictions => t.hpackEvictions
  }

  function Total(hsc: StatusCtx, c: Counter): uint64
  {
    match c
    case Pushes => hsc.h2Pushes
    case HpackEvictions => hsc.h2HpackEvictions
  }

  /** The exact (unbounded) sum of one counter over all workers. */
  function Sum(ts: seq<ThreadStats>, c: Counter): nat
  {
    if |ts| == 0 then 0 else Sum(ts[..|ts| - 1], c) + Get(ts[|ts| - 1], c)
  }

  lemma ModAdd(a: nat, b: nat)
    ensures (a % Two64 + b) % Two64 == (a + b) % Two64
  {
    var q := a / Two64;
    assert a == q * Two64 + a % Two64;
    assert a + b == (a % Two64 + b) + q * Two64;
  }

  /** After any sequence of `per_thread` calls each total is the sum of the
      workers' counts reduced modulo 2^64. */
  lemma {:induction false} RollupIsSumMod(ts: seq<ThreadStats>, c: Counter)
    ensures Total(Rollup(ts), c) == Sum(ts, c) % Two64
    decreases |ts|
  {
    if |ts| > 0 {
      var init := ts[..|ts| - 1];
      RollupIsSumMod(init, c);
      ModAdd(Sum(init, c), Get(ts[|ts| - 1], c));
    }
  }

  lemma {:induction false} SumConcat(a: seq<ThreadStats>, b: seq<ThreadStats>, c: Counter)
    ensures Sum(a + b, c) == Sum(a, c) + Sum(b, c)
    decreases |b|
  {
    if |b| == 0 {
      assert a + b == a;
    } else {
      assert (a + b)[..|a + b| - 1] == a + b[..|b| - 1];
      SumConcat(a, b[..|b| - 1], c);
    }
  }

  /** The sum does not depend on the order of the workers. */
  lemma {:induction false} SumPermutation(a: seq<ThreadStats>, b: seq<ThreadStats>, c: Counter)
    requires multiset(a) == multiset(b)
    ensures Sum(a, c) == Sum(b, c)
    decreases |a|
  {
    if |a| == 0 {
      assert |multiset(b)| == 0;
    } else {
      var x := a[|a| - 1];
      var a' := a[..|a| - 1];
      RemoveAt(a, |a| - 1);
      assert a[..|a| - 1] + a[|a|..] == a';
      assert x in multiset(b);
      var k :| 0 <= k < |b| && b[k] == x;
      RemoveAt(b, k);
      SumPermutation(a', b[..k] + b[k + 1..], c);
      SumRemoveAt(b, k, c);
    }
  }

  lemma RemoveAt(b: seq<ThreadStats>, k: nat)
    requires k < |b|
    ensures multiset(b[..k] + b[k + 1..]) == multiset(b) - multiset{b[k]}
  {
    assert b == b[..k] + [b[k]] + b[k + 1..];
  }

  lemma SumRemoveAt(b: seq<ThreadStats>, k: nat, c: Counter)
    requires k < |b|
    ensures Sum(b, c) == Sum(b[..k] + b[k + 1..], c) + Get(b[k], c)
  {
    var x := b[k];
    assert b == b[..k] + [x] + b[k + 1..];
    SumConcat(b[..k] + [x], b[k + 1..], c);
    SumConcat(b[..k], [x], c);
    SumConcat(b[..k], b[k + 1..], c);
    assert Sum([x], c) == Get(x, c) by {
      assert [x][..0] == [];
    }
  }

  /** Workers may be visited in any order: the totals are the same. */
  lemma RollupOrderIndependent(a: seq<ThreadStats>, b: seq<ThreadStats>)
    requires multiset(a) == multiset(b)
    ensures Rollup(a) == Rollup(b)
  {
    RollupIsSumMod(a, Pushes);
    RollupIsSumMod(b, Pushes);
    RollupIsSumMod(a, HpackEvictions);
    RollupIsSumMod(b, HpackEvictions);
    SumPermutation(a, b, Pushes);
    SumPermutation(a, b, HpackEvictions);
  }

  // ---------------------------------------------------------------------
  // Rendering

  const Head: string := ",\n \"http2-stats.pushes\": "
  const Middle: string := ",\n \"http2-stats.hpack_evictions\": "
  const Tail: string := "\n"

  /** `BUFSIZE` in `http2_status_final`. */
  const BufSize: nat := 128

  /** The text the format string describes for the two totals. */
  function Fragment(pushes: uint64, evictions: uint64): string
  {
    Head + Dec(pushes) + Middle + Dec(evictions) + Tail
  }

  /** `h2o_iovec_t`: the bytes stored in the buffer and the reported length. */
  datatype IoVec = IoVec(base: string, len: nat)

  /** `snprintf` into a buffer of `size` bytes: it stores at most `size - 1`
      characters of `text` (then the terminator) and returns the length of
      the whole of `text`, whether or not it fitted. */
  function Snprintf(size: nat, text: string): (r: IoVec)
    requires size > 0
    ensures |r.base| < size && |r.base| <= |text| && r.base == text[..|r.base|] && r.len == |text|
    ensures |r.base| == r.len <==> |text| < size
    ensures |text| >= size ==> |r.base| == size - 1
  {
    var stored := if |text| < size then |text| else size - 1;
    IoVec(text[..stored], |text|)
  }

  /** The longest the fragment can be: 60 fixed characters and two numbers
      of at most 20 digits. */
  lemma FragmentLength(pushes: uint64, evictions: uint64)
    ensures |Fragment(pushes, evictions)| == 60 + |Dec(pushes)| + |Dec(evictions)|
    ensures |Fragment(pushes, evictions)| <= 100
  {
    Pow10Bounds();
    DecLengthAtMost(pushes, 20);
    DecLengthAtMost(evictions, 20);
  }

  /** 10^19 <= 2^64 - 1 < 10^20: a 64-bit count has at most 20 digits,
      and the largest has exactly 20. */
  lemma Pow10Bounds()
    ensures Pow10(19) <= Two64 - 1 < Pow10(20)
  {
    assert Pow10(5) == 100000;
    assert Pow10(10) == 10000000000;
    assert Pow10(15) == 1000000000000000;
    assert Pow10(19) == 10000000000000000000;
  }

  /** The bound is reached when both counters hold 2^64 - 1. */
  lemma FragmentLengthTight()
    ensures |Fragment(Two64 - 1, Two64 - 1)| == 100
  {
    Pow10Bounds();
    DecLengthAbove(Two64 - 1, 19);
    FragmentLength(Two64 - 1, Two64 - 1);
  }

  /** `http2_status_final`: the fragment always fits the 128-byte buffer,
      so nothing is truncated and the returned length is the number of
      characters stored. */
  function Final(hsc: StatusCtx): (r: IoVec)
    ensures r.base == Fragment(hsc.h2Pushes, hsc.h2HpackEvictions)
    ensures r.len == |r.base| <= 100 < BufSize
  {
    FragmentLength(hsc.h2Pushes, hsc.h2HpackEvictions);
    Snprintf(BufSize, Fragment(hsc.h2Pushes, hsc.h2HpackEvictions))
  }

  // ---------------------------------------------------------------------
  // Reading the fragment back

  datatype Option<T> = None | Some(value: T)

  /** Recognises exactly the fragments `final` produces and recovers the
      two counters. */
  function ParseFragment(s: string): Option<StatusCtx>
  {
    if |s| < |Head| || s[..|Head|] != Head then None
    else
      var r1 := s[|Head|..];
      var k1 := DigitRun(r1);
      var r2 := r1[k1..];
      if !Canonical(r1[..k1]) || |r2| < |Middle| || r2[..|Middle|] != Middle then None
      else
        var r3 := r2[|Middle|..];
        var k2 := DigitRun(r3);
        if !Canonical(r3[..k2]) || r3[k2..] != Tail then None
        else
          var a := ParseDec(r1[..k1]);
          var b := ParseDec(r3[..k2]);
          if a < Two64 && b < Two64 then Some(StatusCtx(a, b)) else None
  }

  /** The rendered fragment determines both totals. */
  lemma FinalRoundTrip(hsc: StatusCtx)
    ensures ParseFragment(Final(hsc).base) == Some(hsc)
  {
    var d1 := Dec(hsc.h2Pushes);
    var d2 := Dec(hsc.h2HpackEvictions);
    var s := Final(hsc).base;
    assert s == Head + (d1 + (Middle + (d2 + Tail)));
    var r1 := s[|Head|..];
    assert r1 == d1 + (Middle + (d2 + Tail));
    DigitRunOf(d1, Middle + (d2 + Tail));
    assert r1[..|d1|] == d1;
    var r2 := r1[|d1|..];
    assert r2 == Middle + (d2 + Tail);
    var r3 := r2[|Middle|..];
    assert r3 == d2 + Tail;
    DigitRunOf(d2, Tail);
    assert r3[..|d2|] == d2 && r3[|d2|..] == Tail;
    ParseDecOfDec(hsc.h2Pushes);
    ParseDecOfDec(hsc.h2HpackEvictions);
  }

  /** Conversely, every text the parser accepts is the output of `final`
      for the totals it recovers. */
  lemma ParsedIsFinal(s: string)
    requires ParseFragment(s).Some?
    ensures Final(ParseFragment(s).value).base == s
  {
    var r1 := s[|Head|..];
    var k1 := DigitRun(r1);
    var p1 := r1[..k1];
    var r2 := r1[k1..];
    var r3 := r2[|Middle|..];
    var k2 := DigitRun(r3);
    var p2 := r3[..k2];
    assert s[..|Head|] == Head && r2[..|Middle|] == Middle && r3[k2..] == Tail;
    assert Canonical(p1) && Canonical(p2);
    assert ParseFragment(s).value == StatusCtx(ParseDec(p1), ParseDec(p2));
    DecOfParseDec(p1);
    DecOfParseDec(p2);
    Reassemble(s, r1, r2, r3, k1, k2);
  }

  lemma Reassemble(s: string, r1: string, r2: string, r3: string, k1: nat, k2: nat)
    requires |Head| <= |s| && s[..|Head|] == Head && r1 == s[|Head|..]
    requires k1 <= |r1| && r2 == r1[k1..]
    requires |Middle| <= |r2| && r2[..|Middle|] == Middle && r3 == r2[|Middle|..]
    requires k2 <= |r3| && r3[k2..] == Tail
    ensures s == Head + r1[..k1] + Middle + r3[..k2] + Tail
  {
    assert s == s[..|Head|] + r1;
    assert r1 == r1[..k1] + r2;
    assert r2 == r2[..|Middle|] + r3;
    assert r3 == r3[..k2] + r3[k2..];
  }
}
