/** A fixed set of workers over a foreground and a background queue, and the text of a CPU quota. */
module ThreadPools {
  import opened Decimals
  import opened Wrappers

  datatype Priority = Foreground | Background

  /** What waits for a worker, oldest first. */
  datatype Queues<T> = Queues(tasks: seq<T>, background: seq<T>)

  function Enqueue<T>(q: Queues<T>, task: T, priority: Priority): Queues<T> {
    if priority.Foreground? then q.(tasks := q.tasks + [task]) else q.(background := q.background + [task])
  }

  predicate Nothing<T>(q: Queues<T>) {
    |q.tasks| == 0 && |q.background| == 0
  }

  /** The background queue is served while the foreground one is empty. */
  function Front<T>(q: Queues<T>): T
    requires !Nothing(q)
  {
    if |q.tasks| == 0 then q.background[0] else q.tasks[0]
  }

  function Rest<T>(q: Queues<T>): Queues<T>
    requires !Nothing(q)
  {
    if |q.tasks| == 0 then q.(background := q.background[1..]) else q.(tasks := q.tasks[1..])
  }

  /** The order in which a queue's tasks would start if no more were submitted. */
  function StartOrder<T>(q: Queues<T>): seq<T> {
    q.tasks + q.background
  }

  /** Taking starts the head of the start order; a submission goes behind its own kind, and a
      foreground one ahead of every background task that still waits. */
  lemma TakesInStartOrder<T>(q: Queues<T>, task: T)
    ensures !Nothing(q) ==> StartOrder(q) == [Front(q)] + StartOrder(Rest(q))
    ensures StartOrder(Enqueue(q, task, Foreground)) == q.tasks + [task] + q.background
    ensures StartOrder(Enqueue(q, task, Background)) == StartOrder(q) + [task]
  {}

  datatype Wake<+T> = Run(task: T) | Stop

  class ThreadPool<T> {
    var tasks: seq<T>
    var background: seq<T>
    var waiting: nat
    var stop: bool

    ghost function Waiting(): Queues<T>
      reads this
    {
      Queues(tasks, background)
    }

    constructor ()
      ensures Nothing(Waiting()) && waiting == 0 && !stop
    {
      tasks, background, waiting, stop := [], [], 0, false;
    }

    method Submit(task: T, priority: Priority)
      modifies this`tasks, this`background
      ensures Waiting() == Enqueue(old(Waiting()), task, priority)
    {
      if priority.Foreground? {
        tasks := tasks + [task];
      } else {
        background := background + [task];
      }
    }

    /** What the destructor does before it joins the workers. */
    method Shutdown()
      modifies this`stop
      ensures stop
    {
      stop := true;
    }

    /** A worker enters the wait. */
    method BeginWait()
      modifies this`waiting
      ensures waiting == old(waiting) + 1
    {
      waiting := waiting + 1;
    }

    /** A worker leaves the wait, which it may do once there is a task or a stop. It stops only when
        nothing waits, so no queued task is ever lost to a shutdown. */
    method EndWait() returns (wake: Wake<T>)
      requires waiting > 0 && (stop || !Nothing(Waiting()))
      modifies this`waiting, this`tasks, this`background
      ensures waiting == old(waiting) - 1
      ensures wake.Stop? <==> old(Nothing(Waiting()))
      ensures wake.Stop? ==> stop && Waiting() == old(Waiting())
      ensures wake.Run? ==> wake.task == Front(old(Waiting())) && Waiting() == Rest(old(Waiting()))
    {
      waiting := waiting - 1;
      if |tasks| == 0 {
        if |background| == 0 {
          return Stop;
        }
        wake := Run(background[0]);
        background := background[1..];
      } else {
        wake := Run(tasks[0]);
        tasks := tasks[1..];
      }
    }

    /** Workers left waiting once each queued task has taken one. */
    method IdleWorkers() returns (idle: nat)
      ensures idle > 0 ==> idle + |StartOrder(Waiting())| == waiting
      ensures idle == 0 <==> waiting <= |StartOrder(Waiting())|
    {
      var queued := |tasks| + |background|;
      idle := if waiting > queued then waiting - queued else 0;
    }
  }

  // -- A CPU quota as text ----------------------------------------------------------------------

  const MAX_UINT64 := 0xFFFF_FFFF_FFFF_FFFF

  lemma {:induction false} DenotedGrows(text: string, n: nat)
    requires AllDigits(text) && n <= |text|
    ensures Denoted(text[..n]) <= Denoted(text)
  {
    if n < |text| {
      var shorter := text[..|text| - 1];
      assert shorter[..n] == text[..n];
      DenotedGrows(shorter, n);
    } else {
      assert text[..n] == text;
    }
  }

  /** Digits only, and nothing that a 64-bit word cannot hold; the guard keeps every step in range. */
  method ParseDigits(text: string) returns (value: Option<nat>)
    ensures value.Some? <==> text != "" && AllDigits(text) && Denoted(text) < 0x1_0000_0000_0000_0000
    ensures value.Some? ==> value.value == Denoted(text)
  {
    if text == "" {
      return None;
    }
    var v: nat := 0;
    for n := 0 to |text|
      invariant AllDigits(text[..n]) && v == Denoted(text[..n]) <= MAX_UINT64
    {
      var c := text[n];
      assert text[..n + 1][..n] == text[..n] && text[..n + 1][n] == c;
      if c < '0' || c > '9' {
        assert !AllDigits(text);
        return None;
      }
      var digit := c as int - '0' as int;
      if v > (MAX_UINT64 - digit) / 10 {
        if AllDigits(text) { DenotedGrows(text, n + 1); }
        return None;
      }
      v := v * 10 + digit;
    }
    assert text[..|text|] == text;
    value := Some(v);
  }

  predicate IsSpace(c: char) {
    c == ' ' || c == '\t' || c == '\n' || c == '\r'
  }

  predicate AllSpaces(text: string) {
    forall i :: 0 <= i < |text| ==> IsSpace(text[i])
  }

  function TrimLeft(text: string): (rest: string)
    ensures |rest| <= |text| && rest == text[|text| - |rest|..] && AllSpaces(text[..|text| - |rest|])
    ensures rest != "" ==> !IsSpace(rest[0])
  {
    if text == "" || !IsSpace(text[0]) then text
    else
      var shorter := text[1..];
      var trimmed := TrimLeft(shorter);
      var n := |shorter| - |trimmed|;
      assert text[1 + n..] == shorter[n..] && forall i :: 0 < i < 1 + n ==> text[i] == shorter[..n][i - 1];
      trimmed
  }

  function TrimRight(text: string): (rest: string)
    ensures rest <= text && AllSpaces(text[|rest|..])
    ensures rest != "" ==> !IsSpace(rest[|rest| - 1])
  {
    if text != "" && IsSpace(text[|text| - 1]) then TrimRight(text[..|text| - 1]) else text
  }

  /** A text without the spaces around it. */
  function Trim(text: string): string {
    TrimRight(TrimLeft(text))
  }

  const SPACES := " \t\n\r"
  const DIGITS := "0123456789"

  predicate Spaces(text: string) {
    forall c :: c in text ==> c in SPACES
  }

  function Padded(before: string, text: string, after: string): string {
    before + text + after
  }

  /** Spaces around digits that denote a number a 64-bit word can hold. */
  ghost predicate ReadsAs(text: string, n: nat) {
    n < 0x1_0000_0000_0000_0000 && exists a, d, b :: text == Padded(a, d, b) && Spaces(a) && Spaces(b) && IsNumber(d, n)
  }

  predicate IsNumber(d: string, n: nat) {
    d != "" && (forall c :: c in d ==> c in DIGITS) && AllDigits(d) && Denoted(d) == n
  }

  lemma SpaceCharacters(c: char)
    ensures c in SPACES <==> IsSpace(c)
    ensures c in DIGITS <==> IsDigit(c)
  {
    assert SPACES[0] == ' ' && SPACES[1] == '\t' && SPACES[2] == '\n' && SPACES[3] == '\r' && |SPACES| == 4;
    assert DIGITS[0] == '0' && DIGITS[1] == '1' && DIGITS[2] == '2' && DIGITS[3] == '3' && DIGITS[4] == '4'
           && DIGITS[5] == '5' && DIGITS[6] == '6' && DIGITS[7] == '7' && DIGITS[8] == '8' && DIGITS[9] == '9'
           && |DIGITS| == 10;
  }

  lemma SpacesAre(text: string)
    ensures Spaces(text) <==> AllSpaces(text)
  {
    forall c ensures c in SPACES <==> IsSpace(c) { SpaceCharacters(c); }
    forall i | 0 <= i < |text| ensures text[i] in text {}
  }

  lemma {:induction false} TrimLeftOf(a: string, t: string)
    requires AllSpaces(a) && (t != "" ==> !IsSpace(t[0]))
    ensures TrimLeft(a + t) == t
  {
    if a == "" {
      assert a + t == t;
    } else {
      assert (a + t)[1..] == a[1..] + t;
      TrimLeftOf(a[1..], t);
    }
  }

  lemma {:induction false} TrimRightOf(t: string, b: string)
    requires AllSpaces(b) && (t != "" ==> !IsSpace(t[|t| - 1]))
    ensures TrimRight(t + b) == t
  {
    if b == "" {
      assert t + b == t;
    } else {
      assert (t + b)[..|t + b| - 1] == t + b[..|b| - 1];
      TrimRightOf(t, b[..|b| - 1]);
    }
  }

  lemma TrimLeftIs(text: string) returns (a: string)
    ensures Spaces(a) && text == a + TrimLeft(text)
  {
    hide TrimLeft;
    a := text[..|text| - |TrimLeft(text)|];
    SpacesAre(a);
  }

  lemma TrimRightIs(text: string) returns (b: string)
    ensures Spaces(b) && text == TrimRight(text) + b
  {
    hide TrimRight;
    b := text[|TrimRight(text)|..];
    SpacesAre(b);
  }

  lemma TrimIs(text: string) returns (a: string, b: string)
    ensures Spaces(a) && Spaces(b) && text == Padded(a, Trim(text), b)
  {
    hide TrimLeft, TrimRight, Spaces;
    a := TrimLeftIs(text);
    b := TrimRightIs(TrimLeft(text));
    assert a + (Trim(text) + b) == Padded(a, Trim(text), b);
  }

  lemma TrimOf(a: string, d: string, b: string)
    requires Spaces(a) && Spaces(b) && IsDigits(d)
    ensures Trim(Padded(a, d, b)) == d
  {
    hide TrimLeft, TrimRight, Spaces;
    SpacesAre(a);
    SpacesAre(b);
    assert IsDigit(d[0]) && IsDigit(d[|d| - 1]);
    assert Padded(a, d, b) == a + (d + b) && (d + b)[0] == d[0];
    TrimLeftOf(a, d + b);
    TrimRightOf(d, b);
  }

  /** What reads does so once its spaces are trimmed. */
  lemma ReadsTrimmed(text: string, n: nat)
    ensures ReadsAs(text, n) <==> IsDigits(Trim(text)) && Denoted(Trim(text)) == n && n <= MAX_UINT64
  {
    forall c ensures c in DIGITS <==> IsDigit(c) { SpaceCharacters(c); }
    if a, d, b :| text == Padded(a, d, b) && Spaces(a) && Spaces(b) && IsNumber(d, n) { TrimOf(a, d, b); }
    if IsDigits(Trim(text)) && Denoted(Trim(text)) == n && n <= MAX_UINT64 {
      var a, b := TrimIs(text);
      var d := Trim(text);
      forall c | c in d ensures c in DIGITS {}
      assert IsNumber(d, n);
    }
  }

  /** The least positive number of workers that covers a quota per period. */
  predicate IsLeastCover(quota: nat, period: nat, workers: nat) {
    1 <= workers && quota <= workers * period && (workers == 1 || (workers - 1) * period < quota)
  }

  /** A quota and a period as text, in workers; no bound when either does not read or the period is
      zero. */
  method QuotaToWorkers(quota: string, period: string) returns (workers: Option<nat>)
    ensures workers.Some? <==> exists q: nat, p: nat :: ReadsAs(quota, q) && ReadsAs(period, p) && p != 0
    ensures workers.Some? ==> workers.value < 0x1_0000_0000_0000_0000
    ensures forall q: nat, p: nat :: workers.Some? && ReadsAs(quota, q) && ReadsAs(period, p) ==> IsLeastCover(q, p, workers.value)
  {
    hide Trim, ReadsAs, Denoted;
    forall n: nat ensures ReadsAs(quota, n) <==> IsDigits(Trim(quota)) && Denoted(Trim(quota)) == n && n <= MAX_UINT64 {
      ReadsTrimmed(quota, n);
    }
    forall n: nat ensures ReadsAs(period, n) <==> IsDigits(Trim(period)) && Denoted(Trim(period)) == n && n <= MAX_UINT64 {
      ReadsTrimmed(period, n);
    }
    var q := ParseDigits(Trim(quota));
    var p := ParseDigits(Trim(period));
    if q.None? || p.None? || p.value == 0 {
      return None;
    }
    assert ReadsAs(quota, q.value) && ReadsAs(period, p.value);
    workers := Some(QuotaWorkers(q.value, p.value));
  }

  /** Workers enough for a quota per period, rounded up, one at the least. */
  function QuotaWorkers(quota: nat, period: nat): (workers: nat)
    requires quota <= MAX_UINT64 && 0 < period
    ensures workers <= MAX_UINT64 && IsLeastCover(quota, period, workers)
  {
    var whole := quota / period;
    var workers := whole + if quota % period == 0 then 0 else 1;
    assert quota == whole * period + quota % period;
    QuotientBound(quota, period);
    if workers >= MAX_UINT64 then MAX_UINT64 else if workers > 1 then workers else 1
  }

  lemma QuotientBound(quota: nat, period: nat)
    requires 0 < period
    ensures quota / period + (if quota % period == 0 then 0 else 1) <= quota
  {
    SharesBound(quota, quota / period, quota % period, period);
  }

  lemma SharesBound(quota: nat, whole: nat, rest: nat, period: nat)
    requires 0 < period && quota == whole * period + rest
    ensures whole + rest <= quota
  {
    assert whole * period == whole + whole * (period - 1);
  }
}
