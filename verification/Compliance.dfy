/**
 The rule engine over the event log, `src/audit/compliance.rs`.

 Descriptions keep the numbers the program formats into them.  `Quotient` is the division of two
 counts in double precision.
 */
module Compliance {
  import opened AuditLog
  import opened Bytes
  import opened Doubles

  // The action labels "auth.failure", "key.revoke" and "key.rotation".
  const AUTH_FAILURE: bytes := [0x61, 0x75, 0x74, 0x68, 0x2e, 0x66, 0x61, 0x69, 0x6c, 0x75, 0x72, 0x65]
  const KEY_REVOKE: bytes := [0x6b, 0x65, 0x79, 0x2e, 0x72, 0x65, 0x76, 0x6f, 0x6b, 0x65]
  const KEY_ROTATION: bytes := [0x6b, 0x65, 0x79, 0x2e, 0x72, 0x6f, 0x74, 0x61, 0x74, 0x69, 0x6f, 0x6e]

  datatype Rule =
    | MaxConsecutiveAuthFailures(maxConsecutive: nat)
    | RequireCriticalOnRevocation
    | MaxRevocationToRotationRatio(maxRatio: real)

  datatype Description =
    | ConsecutiveFailures(count: nat, limit: nat)
    | NotCritical(index: nat, severity: Severity)
    | RatioUndefined(revocations: nat)
    | RatioExceeded(ratio: real, maxRatio: real)

  datatype Violation = Violation(description: Description, entryIndices: seq<nat>)

  datatype Report = Report(totalEntries: nat, violations: seq<Violation>, passed: bool)

  datatype Outcome = Done(report: Report) | NothingToEvaluate

  // ----- Failure streaks -----

  function Failures(entries: seq<Entry>): (failed: seq<bool>)
    ensures |failed| == |entries|
  {
    seq(|entries|, i requires 0 <= i < |entries| => entries[i].action == AUTH_FAILURE)
  }

  /** The half-open interval lo..hi is a maximal run of failures. */
  predicate IsStreak(failed: seq<bool>, lo: nat, hi: nat) {
    && lo < hi <= |failed|
    && (forall i :: lo <= i < hi ==> failed[i])
    && (lo > 0 ==> !failed[lo - 1])
    && (hi < |failed| ==> !failed[hi])
  }

  datatype Span = Span(lo: nat, hi: nat)

  /** Where the run of failures that ends just before `n` begins. */
  function RunStart(failed: seq<bool>, n: nat): (lo: nat)
    requires n <= |failed|
    ensures lo <= n
  {
    if n > 0 && failed[n - 1] then RunStart(failed, n - 1) else n
  }

  /** The over-long runs that have ended before position `n`. */
  function ClosedStreaks(failed: seq<bool>, limit: nat, n: nat): (spans: seq<Span>)
    requires n <= |failed|
    ensures forall k :: 0 <= k < |spans| ==> spans[k].lo <= spans[k].hi <= n
  {
    if n == 0 then []
    else
      var lo := RunStart(failed, n - 1);
      var before := ClosedStreaks(failed, limit, n - 1);
      if !failed[n - 1] && n - 1 - lo > limit then before + [Span(lo, n - 1)] else before
  }

  function LongStreaks(failed: seq<bool>, limit: nat): (spans: seq<Span>)
    ensures forall k :: 0 <= k < |spans| ==> spans[k].lo <= spans[k].hi <= |failed|
  {
    var lo := RunStart(failed, |failed|);
    var closed := ClosedStreaks(failed, limit, |failed|);
    if |failed| - lo > limit then closed + [Span(lo, |failed|)] else closed
  }

  lemma {:induction false} RunStartIsRun(failed: seq<bool>, n: nat)
    requires n <= |failed|
    ensures var lo := RunStart(failed, n);
            && (forall i :: lo <= i < n ==> failed[i])
            && (lo > 0 ==> !failed[lo - 1])
  {
    if n > 0 && failed[n - 1] {
      RunStartIsRun(failed, n - 1);
    }
  }

  lemma {:induction false} RunStartUnique(failed: seq<bool>, lo: nat, n: nat)
    requires lo <= n <= |failed|
    requires (forall i :: lo <= i < n ==> failed[i]) && (lo > 0 ==> !failed[lo - 1])
    ensures RunStart(failed, n) == lo
  {
    if lo < n {
      RunStartUnique(failed, lo, n - 1);
    }
  }

  /** The only run of failures that can end at `n` starts at `RunStart`. */
  lemma StreakEndingAt(failed: seq<bool>, n: nat)
    requires n <= |failed|
    ensures forall lo: nat :: IsStreak(failed, lo, n) <==>
      lo == RunStart(failed, n) < n && (n < |failed| ==> !failed[n])
  {
    RunStartIsRun(failed, n);
    forall lo: nat | IsStreak(failed, lo, n)
      ensures lo == RunStart(failed, n)
    {
      RunStartUnique(failed, lo, n);
    }
  }

  /** Appending the run that ends at `n`, if it is long and over, to the runs that ended earlier. */
  lemma StreaksExtend(failed: seq<bool>, limit: nat, before: seq<Span>, n: nat, spans: seq<Span>)
    requires n <= |failed| && ExactBelow(failed, limit, before, n)
    requires var lo := RunStart(failed, n);
             spans == if (n < |failed| ==> !failed[n]) && n - lo > limit then before + [Span(lo, n)] else before
    ensures ExactBelow(failed, limit, spans, n + 1)
  {
    var lo := RunStart(failed, n);
    RunsApart(failed, n, before);
    forall s: Span
      ensures s in spans <==> IsStreak(failed, s.lo, s.hi) && s.hi < n + 1 && s.hi - s.lo > limit
    {
      if s.hi == n {
        StreakEndingAt(failed, n);
        assert s !in before;
        assert IsStreak(failed, s.lo, n) <==> s.lo == lo < n && (n < |failed| ==> !failed[n]);
      } else {
        assert s in spans <==> s in before;
      }
    }
  }

  lemma RunsApart(failed: seq<bool>, n: nat, before: seq<Span>)
    requires n <= |failed| && forall s: Span :: s in before ==> IsStreak(failed, s.lo, s.hi) && s.hi < n
    ensures RunStart(failed, n) < n ==> forall k :: 0 <= k < |before| ==> before[k].hi < RunStart(failed, n)
  {
    RunStartIsRun(failed, n);
    forall k | 0 <= k < |before|
      ensures RunStart(failed, n) < n ==> before[k].hi < RunStart(failed, n)
    {
      assert before[k] in before;
    }
  }

  ghost predicate Ordered(spans: seq<Span>) {
    forall j, k :: 0 <= j < k < |spans| ==> spans[j].hi < spans[k].lo
  }

  /** The maximal runs of more than `limit` failures that end below `n`, each once, in order. */
  ghost predicate ExactBelow(failed: seq<bool>, limit: nat, spans: seq<Span>, n: nat) {
    && Ordered(spans)
    && (forall s: Span :: s in spans <==> IsStreak(failed, s.lo, s.hi) && s.hi < n && s.hi - s.lo > limit)
  }

  lemma {:induction false} ClosedStreaksExact(failed: seq<bool>, limit: nat, n: nat)
    requires n <= |failed|
    ensures ExactBelow(failed, limit, ClosedStreaks(failed, limit, n), n)
  {
    if n > 0 {
      ClosedStreaksExact(failed, limit, n - 1);
      StreaksExtend(failed, limit, ClosedStreaks(failed, limit, n - 1), n - 1, ClosedStreaks(failed, limit, n));
    }
  }

  /**
   The check reports exactly the maximal runs of failures longer than the limit, each once and in
   order, a run at the end of the log included.
   */
  lemma LongStreaksExact(failed: seq<bool>, limit: nat)
    ensures var spans := LongStreaks(failed, limit);
            && Ordered(spans)
            && (forall s: Span :: s in spans <==> IsStreak(failed, s.lo, s.hi) && s.hi - s.lo > limit)
  {
    ClosedStreaksExact(failed, limit, |failed|);
    StreaksExtend(failed, limit, ClosedStreaks(failed, limit, |failed|), |failed|, LongStreaks(failed, limit));
  }

  function StreakViolation(entries: seq<Entry>, limit: nat, span: Span): Violation
    requires span.lo <= span.hi <= |entries|
  {
    Violation(ConsecutiveFailures(span.hi - span.lo, limit), Indices(entries[span.lo..span.hi]))
  }

  function Indices(entries: seq<Entry>): (r: seq<nat>)
    ensures |r| == |entries|
  {
    seq(|entries|, i requires 0 <= i < |entries| => entries[i].index)
  }

  function StreakViolations(entries: seq<Entry>, limit: nat, spans: seq<Span>): (vs: seq<Violation>)
    requires forall k :: 0 <= k < |spans| ==> spans[k].lo <= spans[k].hi <= |entries|
    ensures |vs| == |spans|
  {
    seq(|spans|, k requires 0 <= k < |spans| => StreakViolation(entries, limit, spans[k]))
  }

  /** What closing a run at `i` adds to the report. */
  function Flushed(run: seq<nat>, limit: nat): seq<Violation> {
    if |run| > limit then [Violation(ConsecutiveFailures(|run|, limit), run)] else []
  }

  function CurrentRun(entries: seq<Entry>, i: nat): seq<nat>
    requires i <= |entries|
  {
    Indices(entries[RunStart(Failures(entries), i)..i])
  }

  lemma ClosedTurn(entries: seq<Entry>, limit: nat, i: nat)
    requires i < |entries|
    ensures var failed := Failures(entries);
            StreakViolations(entries, limit, ClosedStreaks(failed, limit, i + 1)) ==
              StreakViolations(entries, limit, ClosedStreaks(failed, limit, i))
              + if failed[i] then [] else Flushed(CurrentRun(entries, i), limit)
    ensures CurrentRun(entries, i + 1) ==
            if Failures(entries)[i] then CurrentRun(entries, i) + [entries[i].index] else []
  {
    var failed := Failures(entries);
    var lo := RunStart(failed, i);
    if failed[i] {
      assert entries[lo..i + 1] == entries[lo..i] + [entries[i]];
    }
  }

  lemma LongTurn(entries: seq<Entry>, limit: nat)
    ensures var failed := Failures(entries);
            StreakViolations(entries, limit, LongStreaks(failed, limit)) ==
              StreakViolations(entries, limit, ClosedStreaks(failed, limit, |entries|))
              + Flushed(CurrentRun(entries, |entries|), limit)
  {
  }

  method CheckConsecutiveAuthFailures(entries: seq<Entry>, limit: nat, violations: seq<Violation>)
    returns (r: seq<Violation>)
    ensures r == violations + StreakViolations(entries, limit, LongStreaks(Failures(entries), limit))
  {
    ghost var failed := Failures(entries);
    r := violations;
    var run: seq<nat> := [];
    for i := 0 to |entries|
      invariant run == CurrentRun(entries, i)
      invariant r == violations + StreakViolations(entries, limit, ClosedStreaks(failed, limit, i))
    {
      ClosedTurn(entries, limit, i);
      if entries[i].action == AUTH_FAILURE {
        run := run + [entries[i].index];
      } else {
        if |run| > limit {
          r := r + [Violation(ConsecutiveFailures(|run|, limit), run)];
        }
        run := [];
      }
    }
    LongTurn(entries, limit);
    if |run| > limit {
      r := r + [Violation(ConsecutiveFailures(|run|, limit), run)];
    }
  }

  // ----- The other rules -----

  predicate Uncritical(e: Entry) {
    e.action == KEY_REVOKE && e.severity != Critical
  }

  function UncriticalRevocations(entries: seq<Entry>): seq<Violation> {
    if entries == [] then []
    else
      var last := entries[|entries| - 1];
      var before := UncriticalRevocations(entries[..|entries| - 1]);
      if Uncritical(last) then before + [Violation(NotCritical(last.index, last.severity), [last.index])] else before
  }

  method CheckRevocationCriticality(entries: seq<Entry>, violations: seq<Violation>) returns (r: seq<Violation>)
    ensures r == violations + UncriticalRevocations(entries)
  {
    r := violations;
    for i := 0 to |entries|
      invariant r == violations + UncriticalRevocations(entries[..i])
    {
      assert entries[..i + 1][..i] == entries[..i];
      var entry := entries[i];
      if entry.action == KEY_REVOKE && entry.severity != Critical {
        r := r + [Violation(NotCritical(entry.index, entry.severity), [entry.index])];
      }
    }
    assert entries[..|entries|] == entries;
  }

  lemma {:induction false} UncriticalRevocationsExact(entries: seq<Entry>)
    ensures UncriticalRevocations(entries) == [] <==> forall i :: 0 <= i < |entries| ==> !Uncritical(entries[i])
  {
    if entries != [] {
      UncriticalRevocationsExact(entries[..|entries| - 1]);
    }
  }

  function CountAction(entries: seq<Entry>, action: bytes): (n: nat)
    ensures n <= |entries|
  {
    if entries == [] then 0
    else CountAction(entries[..|entries| - 1], action) + if entries[|entries| - 1].action == action then 1 else 0
  }

  function RatioViolations(entries: seq<Entry>, maxRatio: real): seq<Violation> {
    var revocations, rotations := CountAction(entries, KEY_REVOKE), CountAction(entries, KEY_ROTATION);
    if rotations == 0 then
      if revocations > 0 then [Violation(RatioUndefined(revocations), [])] else []
    else
      var ratio := Quotient(revocations, rotations);
      if ratio > maxRatio then [Violation(RatioExceeded(ratio, maxRatio), [])] else []
  }

  // ----- Evaluation -----

  function RuleViolations(entries: seq<Entry>, rule: Rule): seq<Violation> {
    match rule
    case MaxConsecutiveAuthFailures(limit) => StreakViolations(entries, limit, LongStreaks(Failures(entries), limit))
    case RequireCriticalOnRevocation => UncriticalRevocations(entries)
    case MaxRevocationToRotationRatio(maxRatio) => RatioViolations(entries, maxRatio)
  }

  function AllViolations(entries: seq<Entry>, rules: seq<Rule>): seq<Violation> {
    if rules == [] then []
    else AllViolations(entries, rules[..|rules| - 1]) + RuleViolations(entries, rules[|rules| - 1])
  }

  method Evaluate(entries: seq<Entry>, rules: seq<Rule>) returns (r: Outcome)
    ensures r == if entries == [] then NothingToEvaluate
                 else var vs := AllViolations(entries, rules); Done(Report(|entries|, vs, vs == []))
  {
    if entries == [] {
      return NothingToEvaluate;
    }
    var violations: seq<Violation> := [];
    for i := 0 to |rules|
      invariant violations == AllViolations(entries, rules[..i])
    {
      assert rules[..i + 1][..i] == rules[..i];
      match rules[i]
      case MaxConsecutiveAuthFailures(limit) =>
        violations := CheckConsecutiveAuthFailures(entries, limit, violations);
      case RequireCriticalOnRevocation =>
        violations := CheckRevocationCriticality(entries, violations);
      case MaxRevocationToRotationRatio(maxRatio) =>
        violations := violations + RatioViolations(entries, maxRatio);
    }
    assert rules[..|rules|] == rules;
    r := Done(Report(|entries|, violations, violations == []));
  }

  /** What each rule asks of a log, independently of how it is checked. */
  ghost predicate Satisfies(entries: seq<Entry>, rule: Rule) {
    match rule
    case MaxConsecutiveAuthFailures(limit) =>
      forall lo: nat, hi: nat :: IsStreak(Failures(entries), lo, hi) ==> hi - lo <= limit
    case RequireCriticalOnRevocation =>
      forall i :: 0 <= i < |entries| && entries[i].action == KEY_REVOKE ==> entries[i].severity == Critical
    case MaxRevocationToRotationRatio(maxRatio) =>
      var revocations, rotations := CountAction(entries, KEY_REVOKE), CountAction(entries, KEY_ROTATION);
      if rotations == 0 then revocations == 0 else Quotient(revocations, rotations) <= maxRatio
  }

  lemma RuleSatisfiedIff(entries: seq<Entry>, rule: Rule)
    ensures RuleViolations(entries, rule) == [] <==> Satisfies(entries, rule)
  {
    match rule
    case MaxConsecutiveAuthFailures(limit) =>
      var failed := Failures(entries);
      var spans := LongStreaks(failed, limit);
      LongStreaksExact(failed, limit);
      if spans != [] {
        assert spans[0] in spans;
        assert IsStreak(failed, spans[0].lo, spans[0].hi);
      } else {
        forall lo: nat, hi: nat | IsStreak(failed, lo, hi)
          ensures hi - lo <= limit
        {
          assert Span(lo, hi) !in spans;
        }
      }
    case RequireCriticalOnRevocation =>
      UncriticalRevocationsExact(entries);
      assert forall i :: 0 <= i < |entries| ==>
        (Uncritical(entries[i]) <==> !(entries[i].action == KEY_REVOKE ==> entries[i].severity == Critical));
    case MaxRevocationToRotationRatio(maxRatio) =>
  }

  /**
   What the rounded ratio rule means, for a limit that is the double `a / 2^b`: a log without
   rotations satisfies it exactly when nothing was revoked; any other exactly when its ratio is
   within half a unit in the last place of the limit, as it is whenever it is exactly within it.
   */
  lemma RatioRuleIff(entries: seq<Entry>, a: nat, b: nat)
    requires |entries| <= EXACT_COUNTS && a < 0x20_0000_0000_0000 && Two(b) > 0
    ensures var revocations, rotations := CountAction(entries, KEY_REVOKE), CountAction(entries, KEY_ROTATION);
            var none := RatioViolations(entries, a as real / Two(b) as real) == [];
            if rotations == 0 then none <==> revocations == 0
            else (none <==> RoundsWithin(revocations, rotations, a, b))
                 && (revocations * Two(b) <= a * rotations ==> none)
  {
    hide CountAction, RoundsWithin, Quotient, Two;
    var revocations, rotations := CountAction(entries, KEY_REVOKE), CountAction(entries, KEY_ROTATION);
    if rotations > 0 {
      QuotientWithinIff(revocations, rotations, a, b);
      if revocations * Two(b) <= a * rotations {
        ExactlyWithin(revocations, rotations, a, b);
      }
    }
  }

  /** A report passes exactly when the log satisfies every rule. */
  lemma {:induction false} PassesIffSatisfied(entries: seq<Entry>, rules: seq<Rule>)
    ensures AllViolations(entries, rules) == [] <==>
            forall i :: 0 <= i < |rules| ==> Satisfies(entries, rules[i])
  {
    hide Satisfies, RuleViolations;
    if rules != [] {
      var n := |rules| - 1;
      PassesIffSatisfied(entries, rules[..n]);
      RuleSatisfiedIff(entries, rules[n]);
      assert forall i :: 0 <= i < n ==> rules[..n][i] == rules[i];
    }
  }

  // ----- What is reported, entry by entry -----

  function Ascii(s: string): (r: bytes)
    requires forall i :: 0 <= i < |s| ==> s[i] as int < 0x80
    ensures |r| == |s|
  {
    seq(|s|, i requires 0 <= i < |s| => s[i] as int as u8)
  }

  lemma Labels()
    ensures AUTH_FAILURE == Ascii("auth.failure") && KEY_REVOKE == Ascii("key.revoke")
    ensures KEY_ROTATION == Ascii("key.rotation")
  {
  }

  /** The entries lo..hi are all failures, and their neighbours are not. */
  predicate FailureRun(entries: seq<Entry>, lo: nat, hi: nat) {
    && lo < hi <= |entries|
    && (forall i :: lo <= i < hi ==> entries[i].action == Ascii("auth.failure"))
    && (lo > 0 ==> entries[lo - 1].action != Ascii("auth.failure"))
    && (hi < |entries| ==> entries[hi].action != Ascii("auth.failure"))
  }

  /** A violation that reports the run lo..hi: its length, the limit, and the stored index of each entry. */
  predicate ReportsRun(entries: seq<Entry>, limit: nat, v: Violation, lo: nat, hi: nat)
    requires lo <= hi <= |entries|
  {
    && v.description == ConsecutiveFailures(hi - lo, limit) && |v.entryIndices| == hi - lo
    && forall i :: lo <= i < hi ==> v.entryIndices[i - lo] == entries[i].index
  }

  /** The runs of failures longer than the limit, each once and in order, are what is reported. */
  lemma FailureReports(entries: seq<Entry>, limit: nat)
    ensures var spans := LongStreaks(Failures(entries), limit);
            var vs := StreakViolations(entries, limit, spans);
            && Ordered(spans)
            && (forall s: Span :: s in spans <==> FailureRun(entries, s.lo, s.hi) && s.hi - s.lo > limit)
            && |vs| == |spans|
            && forall k :: 0 <= k < |vs| ==> ReportsRun(entries, limit, vs[k], spans[k].lo, spans[k].hi)
  {
    hide Ascii, LongStreaks;
    Labels();
    var failed := Failures(entries);
    LongStreaksExact(failed, limit);
    forall lo: nat, hi: nat
      ensures IsStreak(failed, lo, hi) <==> FailureRun(entries, lo, hi)
    {
      StreakIsRun(entries, lo, hi);
    }
  }

  lemma StreakIsRun(entries: seq<Entry>, lo: nat, hi: nat)
    ensures IsStreak(Failures(entries), lo, hi) <==> FailureRun(entries, lo, hi)
  {
    hide Ascii;
    Labels();
    var failed := Failures(entries);
    assert forall i :: 0 <= i < |entries| ==> (failed[i] <==> entries[i].action == AUTH_FAILURE);
    if FailureRun(entries, lo, hi) {
      assert forall i :: lo <= i < hi ==> failed[i];
    }
    if IsStreak(failed, lo, hi) {
      forall i | lo <= i < hi
        ensures entries[i].action == AUTH_FAILURE
      {
        assert failed[i];
      }
    }
  }

  /** A revocation that is not critical. */
  predicate Wrongly(e: Entry) {
    e.action == Ascii("key.revoke") && e.severity != Critical
  }

  /** `at` lists, in order, the positions of the revocations that are not critical. */
  ghost predicate ListsWrong(entries: seq<Entry>, at: seq<nat>) {
    && (forall i, j :: 0 <= i < j < |at| ==> at[i] < at[j])
    && (forall i :: 0 <= i < |at| ==> at[i] < |entries| && Wrongly(entries[at[i]]))
    && (forall k: nat :: k < |entries| && Wrongly(entries[k]) ==> k in at)
  }

  lemma ListsOneMore(entries: seq<Entry>, before: seq<nat>)
    requires entries != [] && ListsWrong(entries[..|entries| - 1], before)
    ensures ListsWrong(entries, if Wrongly(entries[|entries| - 1]) then before + [|entries| - 1] else before)
  {
    hide Wrongly;
    var n := |entries| - 1;
    var at := if Wrongly(entries[n]) then before + [n] else before;
    forall i | 0 <= i < |before|
      ensures before[i] < n && Wrongly(entries[before[i]])
    {
      assert Wrongly(entries[..n][before[i]]);
    }
    forall k: nat | k < |entries| && Wrongly(entries[k])
      ensures k in at
    {
      if k < n {
        assert Wrongly(entries[..n][k]);
      } else {
        assert at[|before|] == k;
      }
    }
  }

  /** The violation for a revocation that is not critical names its stored index and its severity. */
  function WrongReport(e: Entry): Violation {
    Violation(NotCritical(e.index, e.severity), [e.index])
  }

  /** The revocations that are not critical, each once and in order, are what is reported. */
  lemma {:induction false} RevocationReports(entries: seq<Entry>) returns (at: seq<nat>)
    ensures ListsWrong(entries, at) && |UncriticalRevocations(entries)| == |at|
    ensures forall i :: 0 <= i < |at| ==> UncriticalRevocations(entries)[i] == WrongReport(entries[at[i]])
  {
    hide ListsWrong, Ascii;
    Labels();
    if entries == [] {
      at := [];
      NothingWrong();
    } else {
      var n := |entries| - 1;
      var before := RevocationReports(entries[..n]);
      ListsOneMore(entries, before);
      ListedInRange(entries[..n], before);
      at := if Wrongly(entries[n]) then before + [n] else before;
      forall i | 0 <= i < |before|
        ensures UncriticalRevocations(entries)[i] == WrongReport(entries[before[i]])
      {
        assert entries[..n][before[i]] == entries[before[i]];
      }
    }
  }

  lemma NothingWrong()
    ensures ListsWrong([], [])
  {
  }

  lemma ListedInRange(entries: seq<Entry>, at: seq<nat>)
    requires ListsWrong(entries, at)
    ensures forall i :: 0 <= i < |at| ==> at[i] < |entries|
  {
  }

  /** Counting an action is counting the entries that have it. */
  lemma {:induction false} ActionCount(entries: seq<Entry>, action: bytes)
    ensures CountAction(entries, action) == |set i | 0 <= i < |entries| && entries[i].action == action|
  {
    if entries == [] {
      assert Having(entries, action) == {};
    } else {
      ActionCount(entries[..|entries| - 1], action);
      HavingOneMore(entries, action);
    }
  }

  function Having(entries: seq<Entry>, action: bytes): (at: set<int>)
    ensures at == set i | 0 <= i < |entries| && entries[i].action == action
  {
    set i | 0 <= i < |entries| && entries[i].action == action
  }

  lemma HavingOneMore(entries: seq<Entry>, action: bytes)
    requires entries != []
    ensures var n := |entries| - 1;
            n !in Having(entries[..n], action)
            && Having(entries, action)
               == if entries[n].action == action then Having(entries[..n], action) + {n} else Having(entries[..n], action)
  {
    var n := |entries| - 1;
    forall i | 0 <= i < n
      ensures i in Having(entries, action) <==> i in Having(entries[..n], action)
    {
      assert entries[..n][i] == entries[i];
    }
  }

  /** The ratio rule, by the numbers of revocations and rotations. */
  lemma RatioReports(entries: seq<Entry>, maxRatio: real)
    ensures var revocations := |set i | 0 <= i < |entries| && entries[i].action == Ascii("key.revoke")|;
            var rotations := |set i | 0 <= i < |entries| && entries[i].action == Ascii("key.rotation")|;
            RatioViolations(entries, maxRatio) ==
              if rotations > 0 then
                if Quotient(revocations, rotations) > maxRatio
                then [Violation(RatioExceeded(Quotient(revocations, rotations), maxRatio), [])] else []
              else if revocations > 0 then [Violation(RatioUndefined(revocations), [])] else []
  {
    hide Ascii, Quotient;
    Labels();
    ActionCount(entries, KEY_REVOKE);
    ActionCount(entries, KEY_ROTATION);
  }

  /** The rules report one after the other, each by its own check. */
  lemma {:induction false} RulesInOrder(entries: seq<Entry>, a: seq<Rule>, b: seq<Rule>)
    ensures AllViolations(entries, a + b) == AllViolations(entries, a) + AllViolations(entries, b)
    decreases |b|
  {
    hide RuleViolations;
    if b == [] {
      assert a + b == a;
    } else {
      var n := |b| - 1;
      RulesInOrder(entries, a, b[..n]);
      assert (a + b)[..|a| + n] == a + b[..n];
    }
  }

  lemma OneRule(entries: seq<Entry>, limit: nat, maxRatio: real)
    ensures AllViolations(entries, [MaxConsecutiveAuthFailures(limit)])
         == StreakViolations(entries, limit, LongStreaks(Failures(entries), limit))
    ensures AllViolations(entries, [RequireCriticalOnRevocation]) == UncriticalRevocations(entries)
    ensures AllViolations(entries, [MaxRevocationToRotationRatio(maxRatio)]) == RatioViolations(entries, maxRatio)
  {
    assert [MaxConsecutiveAuthFailures(limit)][..0] == [] && [RequireCriticalOnRevocation][..0] == [];
    assert [MaxRevocationToRotationRatio(maxRatio)][..0] == [];
  }
}
