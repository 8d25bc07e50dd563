/**
  The progress reporter of `src/progressbar.rs`: a sender that enqueues
  `Stage` messages and a receiving loop that folds them into a stage
  counter. The thread, the channel's blocking and the terminal bar are not
  modelled; the channel is the sequence of messages sent, in order.
 */
module ProgressBar {
  import opened Optional
  import opened Search

  /** `Stage`. */
  datatype Stage =
    | Init(stages: nat)
    | Start(message: string, max: nat)
    | Inc(delta: nat)
    | Finish(message: string)
    | Stop

  /** `ProgressSignal`: the sending half, seen as the messages it has sent. */
  datatype ProgressSignal = ProgressSignal(sent: seq<Stage>)

  /** `init`, `start`, `inc`, `finish` and `stop`: each sends exactly one
      message, the one of its name, after everything sent before. Their
      contracts also say what the message does to the state the receiving
      loop reaches (`Starts` and `LastInit`, defined below). */
  function SendInit(p: ProgressSignal, stages: nat): (p': ProgressSignal)
    ensures p'.sent == p.sent + [Init(stages)]
    ensures Starts(p'.sent) == Starts(p.sent)
    ensures forall d :: LastInit(p'.sent, d) == stages
  {
    var q := p.sent + [Init(stages)];
    assert q[..|q| - 1] == p.sent;
    ProgressSignal(q)
  }

  function SendStart(p: ProgressSignal, message: string, max: nat): (p': ProgressSignal)
    ensures p'.sent == p.sent + [Start(message, max)]
    ensures Starts(p'.sent) == Starts(p.sent) + 1
    ensures forall d :: LastInit(p'.sent, d) == LastInit(p.sent, d)
  {
    var q := p.sent + [Start(message, max)];
    assert q[..|q| - 1] == p.sent;
    ProgressSignal(q)
  }

  function SendInc(p: ProgressSignal, delta: nat): (p': ProgressSignal)
    ensures p'.sent == p.sent + [Inc(delta)]
    ensures Starts(p'.sent) == Starts(p.sent)
    ensures forall d :: LastInit(p'.sent, d) == LastInit(p.sent, d)
  {
    var q := p.sent + [Inc(delta)];
    assert q[..|q| - 1] == p.sent;
    ProgressSignal(q)
  }

  function SendFinish(p: ProgressSignal, message: string): (p': ProgressSignal)
    ensures p'.sent == p.sent + [Finish(message)]
    ensures Starts(p'.sent) == Starts(p.sent)
    ensures forall d :: LastInit(p'.sent, d) == LastInit(p.sent, d)
  {
    var q := p.sent + [Finish(message)];
    assert q[..|q| - 1] == p.sent;
    ProgressSignal(q)
  }

  /** `stop`: when nothing sent before was a `Stop`, the loop stops exactly
      after receiving everything sent before. */
  function SendStop(p: ProgressSignal): (p': ProgressSignal)
    ensures p'.sent == p.sent + [Stop]
    ensures NoStop(p.sent) ==> FirstStop(p'.sent) == |p.sent|
  {
    StopSeals(p.sent);
    ProgressSignal(p.sent + [Stop])
  }

  /** `Drop for ProgressSignal`: a dropped signal sends `Stop`, so the loop
      ends once everything sent before it has been handled. */
  function Drop(p: ProgressSignal): (p': ProgressSignal)
    ensures p'.sent == p.sent + [Stop]
    ensures NoStop(p.sent) ==> FirstStop(p'.sent) == |p.sent|
  {
    SendStop(p)
  }

  predicate NoStop(q: seq<Stage>)
  {
    forall i :: 0 <= i < |q| ==> !q[i].Stop?
  }

  lemma StopSeals(q: seq<Stage>)
    ensures NoStop(q) ==> FirstStop(q + [Stop]) == |q|
  {
    if NoStop(q) {
      FirstStopAppend(q, [Stop]);
    }
  }

  /** `Progress { stages, index }`. */
  datatype Progress = Progress(stages: nat, index: nat)

  /** The state `Progress::start` begins with. */
  const Initial: Progress := Progress(0, 0)

  /** One arm of the `thread_loop` match, for the messages that do not end
      the loop. */
  function Apply(p: Progress, s: Stage): (p': Progress)
    requires !s.Stop?
    ensures s.Init? ==> p' == Progress(s.stages, p.index)
    ensures s.Start? ==> p'.stages == p.stages && p'.index == p.index + 1
    ensures s.Inc? || s.Finish? ==> p' == p
  {
    match s
    case Init(n) => Progress(n, p.index)
    case Start(_, _) => Progress(p.stages, p.index + 1)
    case Inc(_) => p
    case Finish(_) => p
  }

  /** Number of `Start` messages. */
  function Starts(q: seq<Stage>): nat
  {
    if q == [] then 0 else Starts(q[..|q| - 1]) + (if q[|q| - 1].Start? then 1 else 0)
  }

  /** The argument of the last `Init` message, or `d` if there is none. */
  function LastInit(q: seq<Stage>, d: nat): nat
  {
    if q == [] then d
    else if q[|q| - 1].Init? then q[|q| - 1].stages
    else LastInit(q[..|q| - 1], d)
  }

  /** Position of the first `Stop`, or `|q|`. */
  function FirstStop(q: seq<Stage>): (n: nat)
    ensures n <= |q|
    ensures forall i :: 0 <= i < n ==> !q[i].Stop?
    ensures n < |q| ==> q[n].Stop?
  {
    if q == [] then 0 else if q[0].Stop? then 0 else 1 + FirstStop(q[1..])
  }

  /** How `thread_loop` ends: `Stop` received (`Ok(())`), or the queue ran
      dry with every sender gone (`Err(RecvError)`). */
  datatype Ending = Stopped | Disconnected

  /** The loop's result: the final state, the state right after each
      `Start` (whose `[index/stages]` is the bar's prefix), how many
      messages were received, and how it ended. */
  datatype Run = Run(state: Progress, bars: seq<Progress>, received: nat, ending: Ending)

  /** `Progress::thread_loop`: receive and apply messages until `Stop`.
      The state it reaches counts the `Start`s and holds the last `Init`
      before the first `Stop`; nothing after that `Stop` is received. */
  method ThreadLoop(p: Progress, queue: seq<Stage>) returns (r: Run)
    ensures var n := FirstStop(queue);
      && (r.ending == Stopped <==> n < |queue|)
      && r.received == (if n < |queue| then n + 1 else |queue|)
      && r.state == Progress(LastInit(queue[..n], p.stages), p.index + Starts(queue[..n]))
      && |r.bars| == Starts(queue[..n])
      && (forall k :: 0 <= k < |r.bars| ==> r.bars[k].index == p.index + k + 1)
  {
    var n := FirstStop(queue);
    var state := p;
    var bars: seq<Progress> := [];
    var i := 0;
    while i < |queue| && !queue[i].Stop?
      invariant 0 <= i <= n
      invariant state == Progress(LastInit(queue[..i], p.stages), p.index + Starts(queue[..i]))
      invariant |bars| == Starts(queue[..i])
      invariant forall k :: 0 <= k < |bars| ==> bars[k].index == p.index + k + 1
    {
      assert queue[..i + 1][..i] == queue[..i];
      state := Apply(state, queue[i]);
      if queue[i].Start? {
        bars := bars + [state];
      }
      i := i + 1;
    }
    if i < |queue| {
      r := Run(state, bars, i + 1, Stopped);
    } else {
      r := Run(state, bars, i, Disconnected);
    }
  }

  lemma {:induction false} StartsAppend(a: seq<Stage>, b: seq<Stage>)
    ensures Starts(a + b) == Starts(a) + Starts(b)
    decreases |b|
  {
    if b == [] {
      assert a + b == a;
    } else {
      assert (a + b)[..|a + b| - 1] == a + b[..|b| - 1];
      StartsAppend(a, b[..|b| - 1]);
    }
  }

  lemma {:induction false} LastInitAppend(a: seq<Stage>, b: seq<Stage>, d: nat)
    ensures LastInit(a + b, d) == LastInit(b, LastInit(a, d))
    decreases |b|
  {
    if b == [] {
      assert a + b == a;
    } else {
      assert (a + b)[..|a + b| - 1] == a + b[..|b| - 1];
      LastInitAppend(a, b[..|b| - 1], d);
    }
  }

  lemma {:induction false} FirstStopAppend(a: seq<Stage>, b: seq<Stage>)
    requires forall i :: 0 <= i < |a| ==> !a[i].Stop?
    ensures FirstStop(a + b) == |a| + FirstStop(b)
  {
    if a != [] {
      assert (a + b)[1..] == a[1..] + b;
      FirstStopAppend(a[1..], b);
    } else {
      assert a + b == b;
    }
  }

  /** The messages one converted file sends: `start`, then its `inc`s. */
  datatype FileRun = FileRun(kind: string, deltas: seq<nat>)

  function Incs(deltas: seq<nat>): (q: seq<Stage>)
    ensures |q| == |deltas|
    ensures forall i :: 0 <= i < |q| ==> q[i] == Inc(deltas[i])
  {
    if deltas == [] then [] else [Inc(deltas[0])] + Incs(deltas[1..])
  }

  function FileMessages(runs: seq<FileRun>): seq<Stage>
  {
    if runs == [] then [] else [Start(runs[0].kind, 100)] + Incs(runs[0].deltas) + FileMessages(runs[1..])
  }

  /** The whole conversion's messages in the order the program sends
      them. `make_vec` runs before `init`, and building the FastText and
      Word2Vec decoders already sends their header lines' byte counts
      (`headers`). Then come `init` with the number of decoders, each
      file's messages, and the `Stop` of the signal's drop. */
  function Session(headers: seq<nat>, runs: seq<FileRun>): seq<Stage>
  {
    Drop(ProgressSignal(Incs(headers) + [Init(|runs|)] + FileMessages(runs))).sent
  }

  lemma {:induction false} FileMessagesShape(runs: seq<FileRun>, d: nat)
    ensures Starts(FileMessages(runs)) == |runs|
    ensures LastInit(FileMessages(runs), d) == d
    ensures forall i :: 0 <= i < |FileMessages(runs)| ==> !FileMessages(runs)[i].Stop?
  {
    if runs != [] {
      var start := [Start(runs[0].kind, 100)];
      var incs := Incs(runs[0].deltas);
      var head := start + incs;
      var tail := FileMessages(runs[1..]);
      var q := FileMessages(runs);
      assert q == head + tail;
      FileMessagesShape(runs[1..], d);
      IncsShape(runs[0].deltas, d);
      assert Starts(q) == |runs| by {
        StartsAppend(head, tail);
        StartsAppend(start, incs);
      }
      assert LastInit(q, d) == d by {
        LastInitAppend(head, tail, d);
        LastInitAppend(start, incs, d);
        assert start[..0] == [];
      }
      forall i | 0 <= i < |q|
        ensures !q[i].Stop?
      {
        if i >= |head| {
          assert q[i] == tail[i - |head|];
        } else if i > 0 {
          assert q[i] == incs[i - 1];
        }
      }
    }
  }

  lemma {:induction false} IncsShape(deltas: seq<nat>, d: nat)
    ensures Starts(Incs(deltas)) == 0
    ensures forall d' :: LastInit(Incs(deltas), d') == d'
    decreases |deltas|
  {
    var q := Incs(deltas);
    if q != [] {
      IncsShape(deltas[..|deltas| - 1], d);
      assert q[..|q| - 1] == Incs(deltas[..|deltas| - 1]);
    }
  }

  /** A whole conversion: the loop receives every message, ends on the
      drop's `Stop`, and finishes with `stages` set to the number of files
      and `index` counting one `Start` per file; the header `inc`s that
      arrive before `init` change nothing. */
  method RunSession(headers: seq<nat>, runs: seq<FileRun>) returns (r: Run)
    ensures r.ending == Stopped
    ensures r.received == |Session(headers, runs)|
    ensures r.state == Progress(|runs|, |runs|)
    ensures |r.bars| == |runs|
  {
    var q := Session(headers, runs);
    SessionShape(headers, runs);
    r := ThreadLoop(Initial, q);
  }

  /** What the loop needs to know of a session: its only `Stop` is the
      last message, and before it come one `Start` per file and, last of
      the `Init`s, the number of files. */
  lemma SessionShape(headers: seq<nat>, runs: seq<FileRun>)
    ensures var q := Session(headers, runs);
      && |q| > 0
      && FirstStop(q) == |q| - 1
      && Starts(q[..|q| - 1]) == |runs|
      && LastInit(q[..|q| - 1], 0) == |runs|
  {
    var q := Session(headers, runs);
    var pre := Incs(headers) + [Init(|runs|)];
    var body := FileMessages(runs);
    assert q == pre + body + [Stop];
    assert q[..|q| - 1] == pre + body;
    FileMessagesShape(runs, |runs|);
    assert Starts(pre) == 0 && LastInit(pre, 0) == |runs| && NoStop(pre) by {
      PrefixShape(headers, |runs|);
    }
    FirstStopAppend(pre + body, [Stop]);
    StartsAppend(pre, body);
    LastInitAppend(pre, body, 0);
  }

  /** The messages before the files': header `inc`s, then `Init(n)`. */
  lemma PrefixShape(headers: seq<nat>, n: nat)
    ensures var pre := Incs(headers) + [Init(n)];
      Starts(pre) == 0 && LastInit(pre, 0) == n && NoStop(pre)
  {
    var pre := Incs(headers) + [Init(n)];
    IncsShape(headers, 0);
    assert pre[..|pre| - 1] == Incs(headers);
  }

  predicate IsDigit(c: char)
  {
    '0' <= c <= '9'
  }

  predicate AllDigits(s: string)
  {
    forall i :: 0 <= i < |s| ==> IsDigit(s[i])
  }

  /** `{}` of a `u64`: its decimal digits, most significant first. */
  function Decimal(n: nat): (s: string)
    ensures |s| > 0 && AllDigits(s)
  {
    var last := (('0' as int) + n % 10) as char;
    if n < 10 then [last] else Decimal(n / 10) + [last]
  }

  function ParseDecimal(s: string): nat
    requires AllDigits(s)
  {
    if s == [] then 0 else 10 * ParseDecimal(s[..|s| - 1]) + ((s[|s| - 1] as int) - ('0' as int))
  }

  /** Reading the digits back gives the number. */
  lemma {:induction false} DecimalRoundTrip(n: nat)
    ensures ParseDecimal(Decimal(n)) == n
  {
    var s := Decimal(n);
    if n >= 10 {
      assert s[..|s| - 1] == Decimal(n / 10);
      DecimalRoundTrip(n / 10);
    }
  }

  /** The bar's prefix, `format!("[{}/{}]", index, stages)`. */
  function Prefix(p: Progress): string
  {
    "[" + Decimal(p.index) + "/" + Decimal(p.stages) + "]"
  }

  /** The state a prefix displays: `index` before the slash, `stages`
      after it. */
  function ParsePrefix(s: string): Option<Progress>
  {
    if |s| < 2 || s[0] != '[' || s[|s| - 1] != ']' then None
    else
      var body := s[1..|s| - 1];
      var k := Find(body, '/');
      if k < |body| && AllDigits(body[..k]) && AllDigits(body[k + 1..]) then
        Some(Progress(ParseDecimal(body[k + 1..]), ParseDecimal(body[..k])))
      else None
  }

  /** A prefix shows exactly the state it was rendered from. */
  lemma PrefixRoundTrip(p: Progress)
    ensures ParsePrefix(Prefix(p)) == Some(p)
  {
    var a := Decimal(p.index);
    var b := Decimal(p.stages);
    var s := Prefix(p);
    var body := s[1..|s| - 1];
    assert body == a + "/" + b;
    assert Find(body, '/') == |a| by {
      SlashAfterDigits(a, b);
    }
    assert body[..|a|] == a;
    assert body[|a| + 1..] == b;
    DecimalRoundTrip(p.index);
    DecimalRoundTrip(p.stages);
  }

  /** In `a/b` with `a` all digits, the first slash is the one after `a`. */
  lemma SlashAfterDigits(a: string, b: string)
    requires AllDigits(a)
    ensures Find(a + "/" + b, '/') == |a|
  {
    assert '/' !in a by {
      assert !IsDigit('/');
    }
    FindPast(a, '/', b);
  }
}
