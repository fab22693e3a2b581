/**
 What every run of the capture callback keeps, and what a run of beacons leaves.
 */
module CaptureTheorems {
  import opened Wrappers
  import opened ByteOrder
  import opened CText
  import opened Radiotap
  import opened RadiotapTheorems
  import opened Capture

  // ---------------------------------------------------------------- first occurrences

  datatype Key = Key(ssid: string, bssid: string)

  function KeyOf(f: Frame): Key
    requires IsBeacon(f)
  {
    Key(SsidOf(f), AddressAt(f, BSSID_AT))
  }

  predicate AllBeacons(fs: seq<Frame>) {
    fs == [] || (AllBeacons(fs[..|fs| - 1]) && IsBeacon(fs[|fs| - 1]))
  }

  lemma {:induction false} AllBeaconsMeans(fs: seq<Frame>)
    ensures AllBeacons(fs) <==> forall k :: 0 <= k < |fs| ==> IsBeacon(fs[k])
    decreases |fs|
  {
    if fs != [] {
      AllBeaconsMeans(fs[..|fs| - 1]);
    }
  }

  function ArrivalKeys(fs: seq<Frame>): (ks: seq<Key>)
    requires AllBeacons(fs)
    ensures |ks| == |fs|
  {
    if fs == [] then [] else ArrivalKeys(fs[..|fs| - 1]) + [KeyOf(fs[|fs| - 1])]
  }

  function SavedKeys(s: seq<Rec>): (ks: seq<Key>)
    ensures |ks| == |s|
  {
    seq(|s|, k requires 0 <= k < |s| => Key(s[k].ssid, s[k].bssid))
  }

  /** ks with later repeats removed. */
  function Distinct(ks: seq<Key>): (d: seq<Key>)
    ensures |d| <= |ks|
    ensures forall k :: k in d <==> k in ks
  {
    if ks == [] then []
    else
      var d := Distinct(ks[..|ks| - 1]);
      if ks[|ks| - 1] in d then d else d + [ks[|ks| - 1]]
  }

  function AtMost(s: seq<Key>, n: nat): (r: seq<Key>)
    ensures |r| <= n
  {
    if |s| <= n then s else s[..n]
  }

  function FirstIndex(ks: seq<Key>, k: Key): (i: nat)
    ensures i <= |ks|
    ensures i < |ks| ==> ks[i] == k
    ensures k !in ks[..i]
  {
    if ks == [] || ks[0] == k then 0 else 1 + FirstIndex(ks[1..], k)
  }

  lemma {:induction false} FirstIndexIn(ks: seq<Key>, k: Key, i: nat)
    requires i < |ks| && ks[i] == k && k !in ks[..i]
    ensures FirstIndex(ks, k) == i
  {
  }

  // One more arrival, as far as the first n distinct keys are concerned.
  lemma {:induction false} DistinctStep(ks: seq<Key>, n: nat)
    requires ks != []
    ensures var a, k := AtMost(Distinct(ks[..|ks| - 1]), n), ks[|ks| - 1];
      AtMost(Distinct(ks), n) == if |a| == n || k in a then a else a + [k]
  {
    var d, k := Distinct(ks[..|ks| - 1]), ks[|ks| - 1];
    if |d| >= n {
      assert (d + [k])[..n] == d[..n];
    }
  }

  /** Distinct keeps one copy of each element, in the order of first occurrences. */
  lemma {:induction false} DistinctInOrder(ks: seq<Key>, i: nat, j: nat)
    requires i < j < |Distinct(ks)|
    ensures FirstIndex(ks, Distinct(ks)[i]) < FirstIndex(ks, Distinct(ks)[j])
    ensures Distinct(ks)[i] != Distinct(ks)[j]
    decreases |ks|
  {
    var n := |ks| - 1;
    var front, d := ks[..n], Distinct(ks[..n]);
    var a, b := Distinct(ks)[i], Distinct(ks)[j];
    FirstIndexOfFront(ks, a);
    if j < |d| {
      DistinctInOrder(front, i, j);
      FirstIndexOfFront(ks, b);
    } else {
      FirstIndexIn(ks, b, n);
    }
  }

  lemma {:induction false} FirstIndexOfFront(ks: seq<Key>, k: Key)
    requires |ks| > 0 && k in ks[..|ks| - 1]
    ensures FirstIndex(ks, k) == FirstIndex(ks[..|ks| - 1], k) < |ks| - 1
  {
    var front := ks[..|ks| - 1];
    var i := FirstIndex(front, k);
    assert i < |front| by {
      assert front[..|front|] == front;
    }
    assert ks[..i] == front[..i];
    FirstIndexIn(ks, k, i);
  }

  lemma {:induction false} MatchIffKeySaved(t: Table, f: Frame)
    requires Valid(t) && IsBeacon(f)
    ensures MatchOf(t, f) < t.cur <==> KeyOf(f) in SavedKeys(Saved(t))
  {
    var ks := SavedKeys(Saved(t));
    if MatchOf(t, f) < t.cur {
      assert ks[MatchOf(t, f)] == KeyOf(f);
    }
  }

  lemma {:induction false} KeptBeacon(p: Platform, t: Table, f: Frame)
    requires Valid(t) && IsBeacon(f) && OutcomeOf(t, f) == Kept
    ensures Saved(Deliver(p, t, f)) == Saved(t) + [Fill(p, f, t.slots[t.cur])]
    ensures Fill(p, f, t.slots[t.cur]).ssid == SsidOf(f)
    ensures Fill(p, f, t.slots[t.cur]).bssid == AddressAt(f, BSSID_AT)
  {
  }

  lemma {:induction false} OthersKeepSaved(p: Platform, t: Table, f: Frame)
    requires Valid(t) && OutcomeOf(t, f) != Kept
    ensures Saved(Deliver(p, t, f)) == Saved(t)
  {
  }

  lemma {:induction false} DeliverKeys(p: Platform, t: Table, f: Frame)
    requires Valid(t) && IsBeacon(f)
    ensures var ks, k := SavedKeys(Saved(t)), KeyOf(f);
      SavedKeys(Saved(Deliver(p, t, f))) == if |ks| == |t.slots| || k in ks then ks else ks + [k]
  {
    MatchIffKeySaved(t, f);
    if OutcomeOf(t, f) == Kept {
      KeptBeacon(p, t, f);
    } else {
      OthersKeepSaved(p, t, f);
    }
  }

  /** After a run of beacons the saved keys are exactly the first |slots| of the arrivals'
      keys with later repeats removed, in arrival order. */
  lemma {:induction false} SavedAreFirstOccurrences(p: Platform, t: Table, fs: seq<Frame>)
    requires Valid(t) && t.cur == 0 && AllBeacons(fs)
    ensures SavedKeys(Saved(Run(p, t, fs))) == AtMost(Distinct(ArrivalKeys(fs)), |t.slots|)
    decreases |fs|
  {
    if fs != [] {
      var front, f := fs[..|fs| - 1], fs[|fs| - 1];
      SavedAreFirstOccurrences(p, t, front);
      DeliverKeys(p, Run(p, t, front), f);
      assert ArrivalKeys(fs)[..|fs| - 1] == ArrivalKeys(front);
      DistinctStep(ArrivalKeys(fs), |t.slots|);
    }
  }

  /** In particular no two saved records share a key. */
  lemma {:induction false} SavedKeysDiffer(p: Platform, t: Table, fs: seq<Frame>, i: nat, j: nat)
    requires Valid(t) && t.cur == 0 && AllBeacons(fs)
    requires i < j < |Saved(Run(p, t, fs))|
    ensures var s := Saved(Run(p, t, fs)); s[i].ssid != s[j].ssid || s[i].bssid != s[j].bssid
  {
    SavedAreFirstOccurrences(p, t, fs);
    var s, ks := Saved(Run(p, t, fs)), SavedKeys(Saved(Run(p, t, fs)));
    DistinctInOrder(ArrivalKeys(fs), i, j);
    assert ks[i] == Distinct(ArrivalKeys(fs))[i] && ks[j] == Distinct(ArrivalKeys(fs))[j];
  }

  /** Comparing BSSID strings is comparing the 48-bit addresses. */
  lemma {:induction false} KeysCompareAddresses(f: Frame, g: Frame)
    requires IsBeacon(f) && IsBeacon(g)
    ensures KeyOf(f) == KeyOf(g) <==> SsidOf(f) == SsidOf(g) && f[BSSID_AT..BSSID_AT + 6] == g[BSSID_AT..BSSID_AT + 6]
  {
    MacTextIsInjective(f[BSSID_AT..BSSID_AT + 6], g[BSSID_AT..BSSID_AT + 6]);
  }

  // ---------------------------------------------------------------- conservation

  /** How many callbacks of a run have a given outcome. */
  function Count(p: Platform, t: Table, fs: seq<Frame>, o: Outcome): nat
    requires Valid(t)
  {
    if fs == [] then 0
    else
      var front := fs[..|fs| - 1];
      Count(p, t, front, o) + if OutcomeOf(Run(p, t, front), fs[|fs| - 1]) == o then 1 else 0
  }

  lemma {:induction false} DeliverCounts(p: Platform, t: Table, f: Frame)
    requires Valid(t)
    ensures var t', o := Deliver(p, t, f), OutcomeOf(t, f);
      && t'.cur == t.cur + (if o == Kept then 1 else 0)
      && t'.infoCount == t.infoCount + (if o == Kept then 1 else 0)
      && t'.dups == t.dups + (if o == Duplicate then 1 else 0)
      && Saved(t) <= Saved(t')
  {
  }

  /** Over any frames: every callback is accounted for once, the counters say how many
      were kept and discarded, and the records already saved stay as they are. */
  lemma {:induction false} CallbacksAreConserved(p: Platform, t: Table, fs: seq<Frame>)
    requires Valid(t)
    ensures var t' := Run(p, t, fs);
      && |fs| == Count(p, t, fs, Kept) + Count(p, t, fs, Duplicate)
                 + Count(p, t, fs, ZeroType) + Count(p, t, fs, Skipped)
      && t'.cur == t.cur + Count(p, t, fs, Kept) <= |t.slots|
      && t'.dups == t.dups + Count(p, t, fs, Duplicate)
      && t'.infoCount - t'.cur == t.infoCount - t.cur
      && Saved(t) <= Saved(t')
    decreases |fs|
  {
    if fs != [] {
      var front, f := fs[..|fs| - 1], fs[|fs| - 1];
      CallbacksAreConserved(p, t, front);
      DeliverCounts(p, Run(p, t, front), f);
    }
  }

  /** A run can be cut at any point, so the table is append-only throughout. */
  lemma {:induction false} RunsCompose(p: Platform, t: Table, fs: seq<Frame>, gs: seq<Frame>)
    requires Valid(t)
    ensures Run(p, t, fs + gs) == Run(p, Run(p, t, fs), gs)
    ensures Saved(Run(p, t, fs)) <= Saved(Run(p, t, fs + gs))
    decreases |gs|
  {
    if gs == [] {
      assert fs + gs == fs;
    } else {
      RunsCompose(p, t, fs, gs[..|gs| - 1]);
      assert (fs + gs)[..|fs + gs| - 1] == fs + gs[..|gs| - 1];
      CallbacksAreConserved(p, Run(p, t, fs), gs);
    }
  }

  // ---------------------------------------------------------------- the same-SSID counter

  /** The number of pairs of records with equal SSID. */
  function Pairs(s: seq<Rec>): nat {
    if s == [] then 0
    else Pairs(s[..|s| - 1]) + CountSsid(s[..|s| - 1], s[|s| - 1].ssid)
  }

  /** For each discarded duplicate, the number of same-SSID records before its match. */
  function DuplicateWork(p: Platform, t: Table, fs: seq<Frame>): nat
    requires Valid(t) && AllBeacons(fs)
  {
    if fs == [] then 0
    else
      var front, f := fs[..|fs| - 1], fs[|fs| - 1];
      DuplicateWork(p, t, front) + WorkOf(Run(p, t, front), f)
  }

  function WorkOf(t: Table, f: Frame): nat
    requires Valid(t) && IsBeacon(f)
  {
    if OutcomeOf(t, f) == Duplicate then CountSsid(Saved(t)[..MatchOf(t, f)], SsidOf(f)) else 0
  }

  // Records that differ from the key in SSID or BSSID.
  lemma {:induction false} OthersAreAllWithSsid(s: seq<Rec>, ssid: string, bssid: string)
    requires forall j :: 0 <= j < |s| ==> s[j].ssid != ssid || s[j].bssid != bssid
    ensures CountOther(s, ssid, bssid) == CountSsid(s, ssid)
    decreases |s|
  {
    if s != [] {
      OthersAreAllWithSsid(s[..|s| - 1], ssid, bssid);
    }
  }

  lemma {:induction false} DeliverStats(p: Platform, t: Table, f: Frame)
    requires Valid(t) && IsBeacon(f)
    ensures var t' := Deliver(p, t, f);
      t'.sameSsid - Pairs(Saved(t')) == t.sameSsid - Pairs(Saved(t)) + WorkOf(t, f)
  {
    var m := MatchOf(t, f);
    OthersAreAllWithSsid(Saved(t)[..m], SsidOf(f), AddressAt(f, BSSID_AT));
    if OutcomeOf(t, f) == Kept {
      KeptBeacon(p, t, f);
      assert Saved(t)[..m] == Saved(t);
      var s' := Saved(Deliver(p, t, f));
      assert s'[..|s'| - 1] == Saved(t);
    } else {
      OthersKeepSaved(p, t, f);
    }
  }

  /** packets_same_ssid_diff_bssid counts the pairs of saved records with equal SSID,
      plus what the discarded duplicates passed over. */
  lemma {:induction false} SameSsidCounter(p: Platform, t: Table, fs: seq<Frame>)
    requires Valid(t) && t.cur == 0 && t.sameSsid == 0 && AllBeacons(fs)
    ensures Run(p, t, fs).sameSsid == Pairs(Saved(Run(p, t, fs))) + DuplicateWork(p, t, fs)
    decreases |fs|
  {
    if fs != [] {
      SameSsidCounter(p, t, fs[..|fs| - 1]);
      DeliverStats(p, Run(p, t, fs[..|fs| - 1]), fs[|fs| - 1]);
    }
  }

  predicate WithinBound(t: Table, bound: nat) {
    t.cur <= bound + 1 || |t.slots| <= bound + 2
  }

  /** A duplicate is only looked at while the table is not full, and its match is one of
      the records saved so far. */
  lemma {:induction false} WorkIsBounded(p: Platform, t: Table, f: Frame, bound: nat)
    requires Valid(t) && IsBeacon(f) && WithinBound(Deliver(p, t, f), bound)
    ensures WithinBound(t, bound)
    ensures WorkOf(t, f) <= if OutcomeOf(t, f) == Duplicate then bound else 0
    ensures OutcomeOf(t, f) == Duplicate ==> t.cur >= 1
  {
    DeliverCounts(p, t, f);
  }

  function Pred(n: nat): nat {
    if n == 0 then 0 else n - 1
  }

  // Repeated addition, which keeps the induction below linear.
  function Times(a: nat, b: nat): nat {
    if a == 0 then 0 else Times(a - 1, b) + b
  }

  lemma {:induction false} DuplicateWorkBound(p: Platform, t: Table, fs: seq<Frame>, bound: nat)
    requires Valid(t) && AllBeacons(fs) && WithinBound(Run(p, t, fs), bound)
    ensures DuplicateWork(p, t, fs) <= Times(Count(p, t, fs, Duplicate), bound)
    decreases |fs|
  {
    if fs != [] {
      var front, f := fs[..|fs| - 1], fs[|fs| - 1];
      WorkIsBounded(p, Run(p, t, front), f, bound);
      DuplicateWorkBound(p, t, front, bound);
      AddWork(DuplicateWork(p, t, front), WorkOf(Run(p, t, front), f), Count(p, t, front, Duplicate),
              if OutcomeOf(Run(p, t, front), f) == Duplicate then 1 else 0, bound);
    }
  }

  lemma {:induction false} AddWork(work: nat, more: nat, c: nat, one: nat, bound: nat)
    requires work <= Times(c, bound) && one <= 1 && more <= one * bound
    ensures work + more <= Times(c + one, bound)
  {
  }

  lemma {:induction false} DuplicatesNeedARecord(p: Platform, t: Table, fs: seq<Frame>)
    requires Valid(t)
    ensures Count(p, t, fs, Duplicate) > 0 ==> Run(p, t, fs).cur >= 1
    decreases |fs|
  {
    if fs != [] {
      var front, f := fs[..|fs| - 1], fs[|fs| - 1];
      DuplicatesNeedARecord(p, t, front);
      DeliverCounts(p, Run(p, t, front), f);
    }
  }

  lemma {:induction false} TimesIsProduct(a: nat, b: nat)
    ensures Times(a, b) == a * b
  {
    if a > 0 {
      TimesIsProduct(a - 1, b);
      assert a * b == (a - 1) * b + b;
    }
  }

  lemma {:induction false} PairsBound(s: seq<Rec>)
    ensures 2 * Pairs(s) <= Times(|s|, Pred(|s|))
    decreases |s|
  {
    if s != [] {
      var n := |s| - 1;
      PairsBound(s[..n]);
      TimesIsProduct(n, Pred(n));
      TimesIsProduct(n + 1, n);
      NextSquare(n);
    }
  }

  lemma {:induction false} NextSquare(n: nat)
    ensures n * Pred(n) + 2 * n == (n + 1) * n
  {
  }

  lemma {:induction false} MulMonotone(a: nat, b: nat, c: nat)
    requires b <= c
    ensures b * a <= c * a
  {
  }

  // The bound for k records kept, in terms of the distances a = m - 1 - k and b = n - m.
  lemma {:induction false} Polynomials(k: nat, a: nat, b: nat)
    ensures k * (k - 1) == k * k - k
    ensures (1 + a + b) * (k - 1) == k - 1 + k * a - a + k * b - b
    ensures (k + 1 + a) * (k + a) == k * k + 2 * (k * a) + a * a + k + a
    ensures b * (k + a - 1) == k * b + a * b - b
  {
  }

  // k records kept and d duplicates discarded among n arrivals, k < m.
  lemma {:induction false} CounterArithmetic(k: nat, d: nat, m: nat, n: nat)
    requires 1 <= k < m <= n && d <= n - k
    ensures k * (k - 1) + 2 * (d * (k - 1)) <= m * (m - 1) + 2 * ((n - m) * (m - 2))
  {
    var a, b := m - 1 - k, n - m;
    MulMonotone(k - 1, d, 1 + a + b);
    Polynomials(k, a, b);
    assert m == k + 1 + a && m - 1 == k + a && m - 2 == k + a - 1;
    assert a * a >= 0 && a * b >= 0;
  }

  function TwiceCounterLimit(m: nat, n: nat): int {
    m * (m - 1) + 2 * ((n - m) * (m - 2))
  }

  /** A bound for what one duplicate passes over, with k of m slots used at the end. */
  function Passable(m: nat, k: nat): (b: nat)
    requires 2 <= m
    ensures b <= m - 2 && b <= Pred(k)
  {
    if m - 2 <= Pred(k) then m - 2 else Pred(k)
  }

  lemma {:induction false} CounterBoundArithmetic(pairs: nat, work: nat, k: nat, d: nat, m: nat, n: nat)
    requires 2 <= m <= n && k <= m && k + d <= n
    requires 2 * pairs <= Times(k, Pred(k)) && (d > 0 ==> k >= 1)
    requires work <= Times(d, Passable(m, k))
    ensures 2 * (pairs + work) <= TwiceCounterLimit(m, n)
  {
    TimesIsProduct(d, Passable(m, k));
    TimesIsProduct(k, Pred(k));
    if k == m {
      MulMonotone(m - 2, d, n - m);
    } else if k >= 1 {
      CounterArithmetic(k, d, m, n);
    } else {
      MulMonotone(m - 2, 0, n - m);
      MulMonotone(m, 0, m - 1);
    }
  }

  lemma {:induction false} KeptPlusDuplicates(p: Platform, t: Table, fs: seq<Frame>)
    requires Valid(t) && t.cur == 0
    ensures Run(p, t, fs).cur + Count(p, t, fs, Duplicate) <= |fs|
  {
    CallbacksAreConserved(p, t, fs);
  }

  lemma {:induction false} WorkBound(p: Platform, t: Table, fs: seq<Frame>)
    requires Valid(t) && AllBeacons(fs) && 2 <= |t.slots|
    ensures DuplicateWork(p, t, fs)
         <= Times(Count(p, t, fs, Duplicate), Passable(|t.slots|, Run(p, t, fs).cur))
  {
    DuplicateWorkBound(p, t, fs, Passable(|t.slots|, Run(p, t, fs).cur));
  }

  lemma {:induction false} CounterParts(p: Platform, t: Table, fs: seq<Frame>)
    requires Valid(t) && t.cur == 0 && t.sameSsid == 0 && AllBeacons(fs)
    ensures var t', d := Run(p, t, fs), Count(p, t, fs, Duplicate);
      && t'.sameSsid == Pairs(Saved(t')) + DuplicateWork(p, t, fs)
      && 2 * Pairs(Saved(t')) <= Times(t'.cur, Pred(t'.cur)) && t'.cur + d <= |fs|
      && (d > 0 ==> t'.cur >= 1)
  {
    SameSsidCounter(p, t, fs);
    PairsBound(Saved(Run(p, t, fs)));
    KeptPlusDuplicates(p, t, fs);
    DuplicatesNeedARecord(p, t, fs);
  }

  lemma {:induction false} CounterNumbers(p: Platform, t: Table, fs: seq<Frame>)
    returns (pairs: nat, work: nat, k: nat, d: nat)
    requires Valid(t) && t.cur == 0 && t.sameSsid == 0 && AllBeacons(fs)
    requires 2 <= |t.slots|
    ensures Run(p, t, fs).sameSsid == pairs + work
    ensures 2 * pairs <= Times(k, Pred(k)) && k <= |t.slots| && k + d <= |fs|
    ensures work <= Times(d, Passable(|t.slots|, k))
    ensures d > 0 ==> k >= 1
  {
    var t' := Run(p, t, fs);
    pairs, work, k, d := Pairs(Saved(t')), DuplicateWork(p, t, fs), t'.cur, Count(p, t, fs, Duplicate);
    CounterParts(p, t, fs);
    WorkBound(p, t, fs);
  }

  /** For a table of M >= 2 slots and at most N beacons, N >= M, the counter never exceeds
      M(M-1)/2 + (N-M)(M-2). */
  lemma {:induction false} SameSsidCounterBound(p: Platform, t: Table, fs: seq<Frame>, n: nat)
    requires Valid(t) && t.cur == 0 && t.sameSsid == 0 && AllBeacons(fs)
    requires 2 <= |t.slots| <= n && |fs| <= n
    ensures 2 * Run(p, t, fs).sameSsid <= TwiceCounterLimit(|t.slots|, n)
  {
    var pairs, work, k, d := CounterNumbers(p, t, fs);
    CounterBoundArithmetic(pairs, work, k, d, |t.slots|, n);
  }

  /** 3625 for 50 slots and up to 100 packets, the constants of the program. */
  lemma {:induction false} SameSsidCounterBoundOfProgram(p: Platform, t: Table, fs: seq<Frame>)
    requires Valid(t) && t.cur == 0 && t.sameSsid == 0 && AllBeacons(fs)
    requires |t.slots| == MAX_PACKET_INFO_COUNT && |fs| <= 100
    ensures Run(p, t, fs).sameSsid <= 3625
  {
    SameSsidCounterBound(p, t, fs, 100);
  }

  // ---------------------------------------------------------------- history

  /** The fields parseRadioTap goes through. */
  function FieldsOf(f: seq<byte>): seq<Field>
    requires |f| >= 8
  {
    Drift(Start(f, 0))
  }

  /** The headers on which parseRadioTap is defined and returns: init accepts them, they
      are in memory, and every field gone through ends within it_len. */
  lemma {:induction false} HeaderOkIff(f: seq<byte>)
    ensures HeaderOk(f) <==>
      && InitReadable(f, 8192) && InitSucceeds(f, 8192) && ItLen(f) <= |f|
      && forall x <- FieldsOf(f) :: x.End() <= ItLen(f)
  {
    if |f| >= 8 {
      ParseReturnsIff(Start(f, 0));
    }
  }

  lemma {:induction false} WalkOfOkHeader(f: seq<byte>)
    requires HeaderOk(f)
    ensures var t, fs := Walk(f), FieldsOf(f);
      |t| == |fs| + 1 && t[|fs|].ret == END && forall k :: 0 <= k < |fs| ==> t[k] == CallFor(fs[k])
  {
    HeaderOkIff(f);
    WrittenWalkIsDrift(Start(f, 0), Call(0, 0, NULL_ARG));
    ExpectedOfFitting(FieldsOf(f), ItLen(f), Call(0, 0, NULL_ARG));
  }

  lemma {:induction false} ReportedIffCalled(f: seq<byte>, t: seq<Call>, n: nat, i: FieldIndex)
    requires n <= |t| && InBounds(f, t)
    ensures Reported(f, t, n, i).Some? <==> exists k :: 0 <= k < n && t[k].ret == i
    decreases n
  {
    if n > 0 {
      ReportedIffCalled(f, t, n - 1, i);
    }
  }

  lemma {:induction false} CalledIffNamed(t: seq<Call>, fs: seq<Field>, i: FieldIndex)
    requires |t| == |fs| + 1 && t[|fs|].ret == END && forall k :: 0 <= k < |fs| ==> t[k] == CallFor(fs[k])
    ensures (exists k :: 0 <= k < |t| && t[k].ret == i) <==> Names(fs, i)
  {
    if Names(fs, i) {
      var k :| 0 <= k < |fs| && fs[k].index == i;
      assert t[k].ret == i;
    }
    if exists k :: 0 <= k < |t| && t[k].ret == i {
      var k :| 0 <= k < |t| && t[k].ret == i;
      assert k < |fs| && fs[k].index == i;
    }
  }

  /** A field is reported exactly when the list of fields gone through names it. */
  lemma {:induction false} ReportedIffNamed(f: seq<byte>, i: FieldIndex)
    requires HeaderOk(f) && InBounds(f, Walk(f))
    ensures Reported(f, Walk(f), |Walk(f)|, i).Some? <==> Names(FieldsOf(f), i)
  {
    WalkOfOkHeader(f);
    ReportedIffCalled(f, Walk(f), |Walk(f)|, i);
    CalledIffNamed(Walk(f), FieldsOf(f), i);
  }

  /** Rate, channel, signal power and antenna are among the fields gone through. */
  predicate NamesAll(f: seq<byte>)
    requires |f| >= 8
  {
    var fs := FieldsOf(f);
    Names(fs, RATE) && Names(fs, CHANNEL) && Names(fs, DBM_ANTSIGNAL) && Names(fs, ANTENNA)
  }

  predicate ReportsAll(f: seq<byte>) {
    HeaderOk(f) && NamesAll(f)
  }

  /** A saved record is free of what its slot held before exactly when all four radio
      fields are among those gone through. */
  lemma {:induction false} FillForgetsIff(p: Platform, f: Frame)
    requires IsBeacon(f) && HeaderOk(f)
    ensures (forall r, s :: Fill(p, f, r) == Fill(p, f, s)) <==> NamesAll(f)
  {
    WalkInBounds(f);
    ReportedIffNamed(f, RATE);
    ReportedIffNamed(f, CHANNEL);
    ReportedIffNamed(f, DBM_ANTSIGNAL);
    ReportedIffNamed(f, ANTENNA);
    if !NamesAll(f) {
      var r := Rec(0, 0, 0, 0, 0, "", "", "", "");
      var s := Rec(0, 1, 1, 1, 1, "", "", "", "");
      assert Fill(p, f, r) != Fill(p, f, s);
    }
  }

  /** One of the 18-byte headers that the fixed offset of parse_ethernet suits: flags,
      rate, channel, signal, antenna and receive flags present. */
  predicate StandardHeader(f: seq<byte>) {
    && |f| >= 18
    && Version(f) == 0 && ItLen(f) == 18 && PresentWord(f) == 0x482e
  }

  // The state the walk has come to.
  predicate At(s: Iter, index: nat, bits: nat, pos: nat) {
    s.argIndex == index && s.shifter == bits && s.arg == pos
  }

  lemma {:induction false} DriftSkip(s: Iter)
    requires s.argIndex < FIELDS && !Low(s.shifter)
    ensures Drift(s) == Drift(Skip(s)) && At(Skip(s), s.argIndex + 1, s.shifter / 2, s.arg)
  {
  }

  lemma {:induction false} DriftTake(s: Iter)
    requires s.argIndex < FIELDS && Low(s.shifter) && Aligned(s.argIndex, s.arg)
    ensures At(Taken(s), s.argIndex + 1, s.shifter / 2, EndOf(s.argIndex, s.arg))
    ensures var d, r := Drift(s), Drift(Taken(s));
      |d| == |r| + 1 && d[0] == Field(s.argIndex, s.arg) && forall k :: 0 <= k < |r| ==> d[k + 1] == r[k]
  {
    PlaceAligned(s.argIndex, s.arg);
  }

  // Bits 8 to 13 of the standard bitmap: only the antenna.
  lemma {:induction false} StandardDriftEnd(s: Iter)
    requires At(s, 8, 0x48, 15)
    ensures |Drift(s)| == 1 && Drift(s)[0] == Field(11, 15)
  {
    DriftSkip(s);
    DriftSkip(Skip(s));
    var s11 := Skip(Skip(Skip(s)));
    DriftSkip(Skip(Skip(s)));
    DriftTake(s11);
    DriftSkip(Taken(s11));
    DriftSkip(Skip(Taken(s11)));
    assert Drift(Skip(Skip(Taken(s11)))) == [];
  }

  // Bits 4 to 7: the signal.
  lemma {:induction false} StandardDriftMiddle(s: Iter) returns (s8: Iter)
    requires At(s, 4, 0x482, 14)
    ensures At(s8, 8, 0x48, 15)
    ensures var d, r := Drift(s), Drift(s8);
      |d| == |r| + 1 && d[0] == Field(5, 14) && forall k :: 0 <= k < |r| ==> d[k + 1] == r[k]
  {
    DriftSkip(s);
    DriftTake(Skip(s));
    var s6 := Taken(Skip(s));
    DriftSkip(s6);
    DriftSkip(Skip(s6));
    s8 := Skip(Skip(s6));
  }

  // Bits 2 and 3: rate and channel.
  lemma {:induction false} StandardDriftPair(s: Iter) returns (s4: Iter)
    requires At(s, 2, 0x120b, 9)
    ensures At(s4, 4, 0x482, 14)
    ensures var d, r := Drift(s), Drift(s4);
      && |d| == |r| + 2 && d[0] == Field(2, 9) && d[1] == Field(3, 10)
      && forall k :: 0 <= k < |r| ==> d[k + 2] == r[k]
  {
    DriftTake(s);
    var s3 := Taken(s);
    assert At(s3, 3, 0x905, 10);
    DriftTake(s3);
    s4 := Taken(s3);
  }

  // Bits 0 and 1: flags.
  lemma {:induction false} StandardDriftStart(s: Iter) returns (s2: Iter)
    requires At(s, 0, 0x482e, 8)
    ensures At(s2, 2, 0x120b, 9)
    ensures var d, r := Drift(s), Drift(s2);
      |d| == |r| + 1 && d[0] == Field(1, 8) && forall k :: 0 <= k < |r| ==> d[k + 1] == r[k]
  {
    DriftSkip(s);
    var s1 := Skip(s);
    assert At(s1, 1, 0x2417, 8);
    DriftTake(s1);
    s2 := Taken(s1);
  }

  lemma {:induction false} StandardDrift(s: Iter)
    requires At(s, 0, 0x482e, 8)
    ensures var d := Drift(s);
      && |d| == 5 && d[0] == Field(1, 8) && d[1] == Field(2, 9) && d[2] == Field(3, 10)
      && d[3] == Field(5, 14) && d[4] == Field(11, 15)
  {
    var s2 := StandardDriftStart(s);
    var s4 := StandardDriftPair(s2);
    var s8 := StandardDriftMiddle(s4);
    StandardDriftEnd(s8);
    assert Drift(s)[1] == Drift(s2)[0] && Drift(s)[2] == Drift(s2)[1];
    assert Drift(s)[3] == Drift(s2)[2] && Drift(s)[4] == Drift(s2)[3];
    assert Drift(s)[3] == Drift(s4)[0] && Drift(s)[4] == Drift(s4)[1] == Drift(s8)[0];
  }

  lemma {:induction false} StandardStart(f: seq<byte>)
    requires StandardHeader(f)
    ensures Start(f, 0) == Iter(18, 0, 8, 0x482e, NULL_ARG, 0)
    ensures InitReadable(f, BUFSIZ) && InitSucceeds(f, BUFSIZ)
  {
  }

  lemma {:induction false} StandardWalk(f: seq<byte>)
    requires StandardHeader(f)
    ensures var t := Walk(f);
      && |t| == 6 && t[0] == Call(1, 1, 8) && t[1] == Call(2, 2, 9) && t[2] == Call(3, 3, 10)
      && t[3] == Call(5, 5, 14) && t[4] == Call(11, 11, 15) && t[5] == Call(END, 11, 15)
  {
    StandardStart(f);
    WalkOfStandardStart(Start(f, 0));
  }

  lemma {:induction false} WalkOfStandardStart(s: Iter)
    requires s.maxLength == 18 && At(s, 0, 0x482e, 8)
    ensures var t := Trace(PadIndex, s);
      && |t| == 6 && t[0] == Call(1, 1, 8) && t[1] == Call(2, 2, 9) && t[2] == Call(3, 3, 10)
      && t[3] == Call(5, 5, 14) && t[4] == Call(11, 11, 15) && t[5] == Call(END, 11, 15)
  {
    var last, fs := Call(0, s.thisArgIndex, s.thisArg), Drift(s);
    StandardDrift(s);
    WrittenWalkIsDrift(s, last);
    forall f <- fs ensures f.End() <= 18 {
      assert f == fs[0] || f == fs[1] || f == fs[2] || f == fs[3] || f == fs[4];
    }
    ExpectedOfFitting(fs, s.maxLength, last);
  }

  lemma {:induction false} ReportedSkip(f: seq<byte>, t: seq<Call>, n: nat, i: FieldIndex)
    requires n < |t| && InBounds(f, t) && t[n].ret != i
    ensures Reported(f, t, n + 1, i) == Reported(f, t, n, i)
  {
  }

  lemma {:induction false} ReportedHit(f: seq<byte>, t: seq<Call>, n: nat, i: FieldIndex)
    requires n < |t| && InBounds(f, t) && t[n].ret == i
    ensures t[n].offset >= 0 && Reported(f, t, n + 1, i) == Some(t[n].offset)
  {
    assert CallInBounds(f, t[n]);
  }

  // The four lookups in the trace of the standard header.
  lemma {:induction false} StandardReports(f: seq<byte>, t: seq<Call>)
    requires InBounds(f, t) && |t| == 6
    requires t[1] == Call(2, 2, 9) && t[2] == Call(3, 3, 10) && t[3] == Call(5, 5, 14)
    requires t[4] == Call(11, 11, 15) && t[5].ret == END
    ensures Reported(f, t, 6, RATE) == Some(9) && Reported(f, t, 6, CHANNEL) == Some(10)
    ensures Reported(f, t, 6, DBM_ANTSIGNAL) == Some(14) && Reported(f, t, 6, ANTENNA) == Some(15)
  {
    ReportedHit(f, t, 1, RATE);
    ReportedSkip(f, t, 2, RATE);
    ReportedSkip(f, t, 3, RATE);
    ReportedSkip(f, t, 4, RATE);
    ReportedSkip(f, t, 5, RATE);
    ReportedHit(f, t, 2, CHANNEL);
    ReportedSkip(f, t, 3, CHANNEL);
    ReportedSkip(f, t, 4, CHANNEL);
    ReportedSkip(f, t, 5, CHANNEL);
    ReportedHit(f, t, 3, DBM_ANTSIGNAL);
    ReportedSkip(f, t, 4, DBM_ANTSIGNAL);
    ReportedSkip(f, t, 5, DBM_ANTSIGNAL);
    ReportedHit(f, t, 4, ANTENNA);
    ReportedSkip(f, t, 5, ANTENNA);
  }

  lemma {:induction false} StandardHeaderReportsAll(f: Frame)
    requires StandardHeader(f)
    ensures ReportsAll(f)
  {
    var fs := FieldsOf(f);
    StandardStart(f);
    StandardWalk(f);
    StandardDrift(Start(f, 0));
    assert fs[1].index == RATE && fs[2].index == CHANNEL && fs[3].index == DBM_ANTSIGNAL && fs[4].index == ANTENNA;
  }

  lemma {:induction false} StandardFields(p: Platform, f: seq<byte>, r: Rec, t: seq<Call>)
    requires |f| >= 18 && InBounds(f, t) && |t| == 6
    requires t[1] == Call(2, 2, 9) && t[2] == Call(3, 3, 10) && t[3] == Call(5, 5, 14)
    requires t[4] == Call(11, 11, 15) && t[5].ret == END
    ensures WithFields(p, f, r, t, 6)
         == r.(dataRateKbps := 500 * ByteAt(f, 9), channel := ShortAt(p, f, 10),
              power := CharAt(p, f, 14), antenna := ByteAt(f, 15))
  {
    StandardReports(f, t);
  }

  /** On that header the walk as written reports all four radio fields, and takes them
      from where they are. */
  lemma {:induction false} StandardHeaderIsRead(p: Platform, f: Frame, r: Rec)
    requires StandardHeader(f)
    ensures ReportsAll(f)
    ensures WithRadiotap(p, f, r)
         == r.(dataRateKbps := 500 * ByteAt(f, 9), channel := ShortAt(p, f, 10),
              power := CharAt(p, f, 14), antenna := ByteAt(f, 15))
  {
    StandardHeaderReportsAll(f);
    StandardWalk(f);
    WalkInBounds(f);
    StandardFields(p, f, r, Walk(f));
  }

  /** A kept beacon with that header becomes this record, whatever its slot held. */
  lemma {:induction false} StandardBeaconRecord(p: Platform, f: Frame, r: Rec)
    requires IsBeacon(f) && StandardHeader(f)
    ensures Fill(p, f, r) == Rec(
      0x8000, 500 * ByteAt(f, 9), ByteAt(f, 15), ShortAt(p, f, 10), CharAt(p, f, 14),
      CStr(CharsOf(f[56..56 + ByteAt(f, 55)])), MacText(f[28..34]), MacText(f[22..28]), MacText(f[34..40]))
  {
    StandardHeaderIsRead(p, f, WithAddresses(f, WithKey(f, r)));
  }

  /** Every beacon that a run keeps reports the four radio fields. */
  predicate KeepsReportAll(p: Platform, t: Table, fs: seq<Frame>)
    requires Valid(t)
  {
    fs == []
    || (&& KeepsReportAll(p, t, fs[..|fs| - 1])
        && (OutcomeOf(Run(p, t, fs[..|fs| - 1]), fs[|fs| - 1]) == Kept ==> ReportsAll(fs[|fs| - 1])))
  }

  // Such runs of beacons are legal.
  lemma {:induction false} ReportingRunsAreLegal(p: Platform, t: Table, fs: seq<Frame>)
    requires Valid(t) && AllBeacons(fs) && KeepsReportAll(p, t, fs)
    ensures LegalRun(p, t, fs)
    decreases |fs|
  {
    if fs != [] {
      ReportingRunsAreLegal(p, t, fs[..|fs| - 1]);
    }
  }

  /** Runs of frames with that header are legal and report everything. */
  lemma {:induction false} StandardRuns(p: Platform, t: Table, fs: seq<Frame>)
    requires Valid(t)
    requires forall k :: 0 <= k < |fs| ==> StandardHeader(fs[k])
    ensures LegalRun(p, t, fs) && KeepsReportAll(p, t, fs)
    decreases |fs|
  {
    if fs != [] {
      StandardRuns(p, t, fs[..|fs| - 1]);
      StandardHeaderReportsAll(fs[|fs| - 1]);
    }
  }

  /** Two tables that show the same. */
  predicate SameView(t: Table, u: Table) {
    && Valid(t) && Valid(u) && |t.slots| == |u.slots|
    && Saved(t) == Saved(u)
    && t.infoCount == u.infoCount && t.dups == u.dups && t.sameSsid == u.sameSsid
  }

  lemma {:induction false} DeliverSameView(p: Platform, t: Table, u: Table, f: Frame)
    requires SameView(t, u) && IsBeacon(f)
    requires OutcomeOf(t, f) == Kept ==> ReportsAll(f)
    ensures OutcomeOf(u, f) == OutcomeOf(t, f)
    ensures SameView(Deliver(p, t, f), Deliver(p, u, f))
  {
    assert t.cur == |Saved(t)| && u.cur == |Saved(u)|;
    if OutcomeOf(t, f) == Kept {
      FillForgetsIff(p, f);
      assert Fill(p, f, t.slots[t.cur]) == Fill(p, f, u.slots[u.cur]);
      KeptBeacon(p, t, f);
      KeptBeacon(p, u, f);
    } else {
      OthersKeepSaved(p, t, f);
      OthersKeepSaved(p, u, f);
    }
  }

  /** What a run of beacons leaves visible depends on the arrivals only, not on what
      earlier captures or discarded duplicates left in the slots. */
  lemma {:induction false} HistoryDoesNotShow(p: Platform, t: Table, u: Table, fs: seq<Frame>)
    requires SameView(t, u) && AllBeacons(fs) && KeepsReportAll(p, t, fs)
    ensures SameView(Run(p, t, fs), Run(p, u, fs))
    ensures KeepsReportAll(p, u, fs)
    decreases |fs|
  {
    if fs != [] {
      HistoryDoesNotShow(p, t, u, fs[..|fs| - 1]);
      DeliverSameView(p, Run(p, t, fs[..|fs| - 1]), Run(p, u, fs[..|fs| - 1]), fs[|fs| - 1]);
    }
  }

  // ---------------------------------------------------------------- what a record can hold

  /** The value ranges and string lengths of a slot; power is a plain `char`. */
  predicate RecOk(p: Platform, r: Rec) {
    && 0 <= r.dataRateKbps <= 500 * 255 && r.dataRateKbps % 500 == 0
    && 0 <= r.antenna <= 255 && 0 <= r.channel <= 65535
    && (if p.charSigned then -128 <= r.power <= 127 else 0 <= r.power <= 255)
    && |r.ssid| <= MAX_SSID && |r.src| <= 17 && |r.dst| <= 17 && |r.bssid| <= 17
    && NUL !in r.ssid && Plain(r.src) && Plain(r.dst) && Plain(r.bssid)
  }

  predicate SlotsOk(p: Platform, t: Table) {
    forall k :: 0 <= k < |t.slots| ==> RecOk(p, t.slots[k])
  }

  lemma {:induction false} CharRange(p: Platform, f: seq<byte>, o: nat)
    requires o < |f|
    ensures if p.charSigned then -128 <= CharAt(p, f, o) <= 127 else 0 <= CharAt(p, f, o) <= 255
  {
  }

  lemma {:induction false} WithFieldsIsOk(p: Platform, f: seq<byte>, r: Rec, t: seq<Call>, n: nat)
    requires n <= |t| && InBounds(f, t) && RecOk(p, r)
    ensures RecOk(p, WithFields(p, f, r, t, n))
  {
    var o := Reported(f, t, n, DBM_ANTSIGNAL);
    if o.Some? {
      CharRange(p, f, o.value);
    }
  }

  lemma {:induction false} FillIsOk(p: Platform, f: Frame, r: Rec)
    requires IsBeacon(f) && RecOk(p, r)
    ensures RecOk(p, Fill(p, f, r)) && RecOk(p, WithKey(f, r))
  {
    AddressIsPlain(f, BSSID_AT);
    AddressIsPlain(f, SRC_AT);
    AddressIsPlain(f, DST_AT);
    var r' := WithAddresses(f, WithKey(f, r));
    assert RecOk(p, r');
    if HeaderOk(f) {
      WalkInBounds(f);
      WithFieldsIsOk(p, f, r', Walk(f), |Walk(f)|);
    }
  }

  lemma {:induction false} AddressIsPlain(f: Frame, o: nat)
    requires o + 6 <= |f|
    ensures Plain(AddressAt(f, o))
  {
  }

  lemma {:induction false} DeliverKeepsSlotsOk(p: Platform, t: Table, f: Frame)
    requires Valid(t) && SlotsOk(p, t)
    ensures SlotsOk(p, Deliver(p, t, f))
  {
    if OutcomeOf(t, f) != Skipped && IsBeacon(f) {
      FillIsOk(p, f, t.slots[t.cur]);
    }
  }

  /** Rates are 500 times a byte, addresses have at most 17 characters, and so on. */
  lemma {:induction false} RunKeepsSlotsOk(p: Platform, t: Table, fs: seq<Frame>)
    requires Valid(t) && SlotsOk(p, t)
    ensures SlotsOk(p, Run(p, t, fs))
    decreases |fs|
  {
    if fs != [] {
      RunKeepsSlotsOk(p, t, fs[..|fs| - 1]);
      DeliverKeepsSlotsOk(p, Run(p, t, fs[..|fs| - 1]), fs[|fs| - 1]);
    }
  }
}
