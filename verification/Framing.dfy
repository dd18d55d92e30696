/** Line framing of the event FIFO: how reads of arbitrary size become handled lines. */
module Framing {
  import opened Prelude
  import opened Inet
  import opened ReturnRoutes
  import opened ManagerObject

  const NEWLINE: Octet := 10

  // ---- splitting a byte stream ----------------------------------------------

  function UpToNewline(s: seq<Octet>): (n: nat)
    ensures n <= |s|
    ensures forall i :: 0 <= i < n ==> s[i] != NEWLINE
    ensures n < |s| ==> s[n] == NEWLINE
  {
    if s == [] || s[0] == NEWLINE then 0 else 1 + UpToNewline(s[1..])
  }

  /** The lines that a stream completes. */
  function CompleteLines(s: seq<Octet>): seq<seq<Octet>>
    decreases |s|
  {
    var n := UpToNewline(s);
    if n == |s| then [] else [s[..n]] + CompleteLines(s[n + 1..])
  }

  /** What follows the last newline. */
  function Residue(s: seq<Octet>): (r: seq<Octet>)
    ensures NEWLINE !in r
    decreases |s|
  {
    var n := UpToNewline(s);
    if n == |s| then s else Residue(s[n + 1..])
  }

  /** The stream that has these lines and ends in this residue. */
  function Unsplit(lines: seq<seq<Octet>>, residue: seq<Octet>): seq<Octet> {
    if lines == [] then residue else lines[0] + [NEWLINE] + Unsplit(lines[1..], residue)
  }

  lemma UpToNewlineIs(line: seq<Octet>, rest: seq<Octet>)
    requires NEWLINE !in line
    ensures UpToNewline(line + [NEWLINE] + rest) == |line|
    ensures UpToNewline(line) == |line|
  {
    var s := line + [NEWLINE] + rest;
    assert s[|line|] == NEWLINE;
    assert forall i :: 0 <= i < |line| ==> s[i] == line[i];
  }

  lemma SplitStep(line: seq<Octet>, rest: seq<Octet>)
    requires NEWLINE !in line
    ensures CompleteLines(line + [NEWLINE] + rest) == [line] + CompleteLines(rest)
    ensures Residue(line + [NEWLINE] + rest) == Residue(rest)
  {
    var s := line + [NEWLINE] + rest;
    UpToNewlineIs(line, rest);
    assert s[..|line|] == line && s[|line| + 1..] == rest;
  }

  /** Splitting and joining are inverse: `CompleteLines` and `Residue` are the newline split and nothing else. */
  lemma {:induction false} SplitIsExact(s: seq<Octet>)
    ensures Unsplit(CompleteLines(s), Residue(s)) == s
    ensures forall i :: 0 <= i < |CompleteLines(s)| ==> 10 !in CompleteLines(s)[i]
    ensures 10 !in Residue(s)
    decreases |s|
  {
    var n := UpToNewline(s);
    if n < |s| {
      SplitIsExact(s[n + 1..]);
      assert s == s[..n] + [NEWLINE] + s[n + 1..];
    }
  }

  lemma {:induction false} SplitIsUnique(lines: seq<seq<Octet>>, residue: seq<Octet>)
    requires NEWLINE !in residue && forall i :: 0 <= i < |lines| ==> NEWLINE !in lines[i]
    ensures CompleteLines(Unsplit(lines, residue)) == lines && Residue(Unsplit(lines, residue)) == residue
  {
    if lines == [] {
      UpToNewlineIs(residue, []);
    } else {
      SplitIsUnique(lines[1..], residue);
      SplitStep(lines[0], Unsplit(lines[1..], residue));
    }
  }

  ghost predicate SplitsAcross(a: seq<Octet>, b: seq<Octet>) {
    && CompleteLines(a + b) == CompleteLines(a) + CompleteLines(Residue(a) + b)
    && Residue(a + b) == Residue(Residue(a) + b)
  }

  lemma SplitsAcrossStep(line: seq<Octet>, rest: seq<Octet>, b: seq<Octet>)
    requires NEWLINE !in line && SplitsAcross(rest, b)
    ensures SplitsAcross(line + [NEWLINE] + rest, b)
  {
    SplitStep(line, rest);
    SplitStep(line, rest + b);
    Regroup(line + [NEWLINE], rest, b);
    Regroup([line], CompleteLines(rest), CompleteLines(Residue(rest) + b));
  }

  /** Appending to a stream only adds lines: the residue carries everything still pending. */
  lemma {:induction false} SplitConcat(a: seq<Octet>, b: seq<Octet>)
    ensures SplitsAcross(a, b)
    decreases |a|
  {
    var n := UpToNewline(a);
    if n == |a| {
      assert CompleteLines(a) == [] && Residue(a) == a;
    } else {
      var line, rest := a[..n], a[n + 1..];
      assert a == line + [NEWLINE] + rest;
      SplitConcat(rest, b);
      SplitsAcrossStep(line, rest, b);
    }
  }

  // ---- the serving loop -----------------------------------------------------

  /** What one wakeup delivers: FIFO bytes, a failed FIFO read, a poll timeout or a monitor event. */
  datatype Input = Read(chunk: seq<Octet>) | ReadError | Timeout | Monitor

  datatype Action = Handle(line: seq<Octet>) | SweepAll

  function Handles(lines: seq<seq<Octet>>): seq<Action> {
    if lines == [] then [] else [Handle(lines[0])] + Handles(lines[1..])
  }

  function Actions(buf: seq<Octet>, inputs: seq<Input>): seq<Action>
    decreases |inputs|
  {
    if inputs == [] then []
    else match inputs[0]
      case Read(chunk) => Handles(CompleteLines(buf + chunk)) + Actions(Residue(buf + chunk), inputs[1..])
      case ReadError => Actions(buf, inputs[1..])
      case Timeout => [SweepAll] + Actions(buf, inputs[1..])
      case Monitor => [SweepAll] + Actions(buf, inputs[1..])
  }

  function Pending(buf: seq<Octet>, inputs: seq<Input>): seq<Octet>
    decreases |inputs|
  {
    if inputs == [] then buf
    else Pending(if inputs[0].Read? then Residue(buf + inputs[0].chunk) else buf, inputs[1..])
  }

  /** Everything the FIFO delivered. */
  function Stream(inputs: seq<Input>): seq<Octet> {
    if inputs == [] then [] else (if inputs[0].Read? then inputs[0].chunk else []) + Stream(inputs[1..])
  }

  function HandledLines(actions: seq<Action>): seq<seq<Octet>> {
    if actions == [] then []
    else (if actions[0].Handle? then [actions[0].line] else []) + HandledLines(actions[1..])
  }

  lemma {:induction false} HandledLinesConcat(a: seq<Action>, b: seq<Action>)
    ensures HandledLines(a + b) == HandledLines(a) + HandledLines(b)
  {
    if a == [] {
      assert a + b == b;
    } else {
      assert (a + b)[0] == a[0] && (a + b)[1..] == a[1..] + b;
      HandledLinesConcat(a[1..], b);
    }
  }

  lemma {:induction false} HandledLinesOfHandles(lines: seq<seq<Octet>>)
    ensures HandledLines(Handles(lines)) == lines
  {
    if lines != [] {
      assert Handles(lines)[1..] == Handles(lines[1..]);
      HandledLinesOfHandles(lines[1..]);
    }
  }

  /** The claim below for one run of the loop. */
  ghost predicate Framed(buf: seq<Octet>, inputs: seq<Input>) {
    && HandledLines(Actions(buf, inputs)) == CompleteLines(buf + Stream(inputs))
    && Pending(buf, inputs) == Residue(buf + Stream(inputs))
  }

  lemma HandledOfRead(buf: seq<Octet>, inputs: seq<Input>)
    requires inputs != [] && inputs[0].Read?
    ensures var s := buf + inputs[0].chunk;
            HandledLines(Actions(buf, inputs)) == CompleteLines(s) + HandledLines(Actions(Residue(s), inputs[1..]))
  {
    var s := buf + inputs[0].chunk;
    HandledLinesOfHandles(CompleteLines(s));
    HandledLinesConcat(Handles(CompleteLines(s)), Actions(Residue(s), inputs[1..]));
  }

  lemma FramedRead(buf: seq<Octet>, inputs: seq<Input>)
    requires inputs != [] && inputs[0].Read?
    requires Framed(Residue(buf + inputs[0].chunk), inputs[1..])
    ensures Framed(buf, inputs)
  {
    var s, later := buf + inputs[0].chunk, Stream(inputs[1..]);
    HandledOfRead(buf, inputs);
    SplitConcat(s, later);
    Regroup(buf, inputs[0].chunk, later);
    assert Pending(buf, inputs) == Pending(Residue(s), inputs[1..]);
  }

  lemma FramedOther(buf: seq<Octet>, inputs: seq<Input>)
    requires inputs != [] && !inputs[0].Read? && Framed(buf, inputs[1..])
    ensures Framed(buf, inputs)
  {
    assert Stream(inputs) == Stream(inputs[1..]);
    HandledLinesConcat([SweepAll], Actions(buf, inputs[1..]));
  }

  /**
   * However the stream is cut into reads and whatever sweeps fall in between, the handled lines
   * are the newline split of the whole stream, in order, and the buffer is its residue.
   */
  lemma {:induction false} FramingIsChunkIndependent(buf: seq<Octet>, inputs: seq<Input>)
    requires NEWLINE !in buf
    ensures HandledLines(Actions(buf, inputs)) == CompleteLines(buf + Stream(inputs))
    ensures Pending(buf, inputs) == Residue(buf + Stream(inputs))
    decreases |inputs|
  {
    if inputs == [] {
      UpToNewlineIs(buf, []);
      assert buf + [] == buf;
    } else if inputs[0].Read? {
      FramingIsChunkIndependent(Residue(buf + inputs[0].chunk), inputs[1..]);
      FramedRead(buf, inputs);
    } else {
      FramingIsChunkIndependent(buf, inputs[1..]);
      FramedOther(buf, inputs);
    }
  }

  function SweepCount(actions: seq<Action>): nat {
    if actions == [] then 0 else (if actions[0].SweepAll? then 1 else 0) + SweepCount(actions[1..])
  }

  /** Poll timeouts and monitor events. */
  function SweepCalls(inputs: seq<Input>): nat {
    if inputs == [] then 0
    else (if inputs[0].Timeout? || inputs[0].Monitor? then 1 else 0) + SweepCalls(inputs[1..])
  }

  lemma {:induction false} SweepsAfterHandles(lines: seq<seq<Octet>>, rest: seq<Action>)
    ensures SweepCount(Handles(lines) + rest) == SweepCount(rest)
  {
    if lines == [] {
      assert [] + rest == rest;
    } else {
      assert (Handles(lines) + rest)[1..] == Handles(lines[1..]) + rest;
      SweepsAfterHandles(lines[1..], rest);
    }
  }

  /** Every timeout and every monitor event brings one sweep, however the lines are cut. */
  lemma {:induction false} OneSweepPerCall(buf: seq<Octet>, inputs: seq<Input>)
    ensures SweepCount(Actions(buf, inputs)) == SweepCalls(inputs)
    decreases |inputs|
  {
    if inputs != [] {
      if inputs[0].Read? {
        var s := buf + inputs[0].chunk;
        OneSweepPerCall(Residue(s), inputs[1..]);
        SweepsAfterHandles(CompleteLines(s), Actions(Residue(s), inputs[1..]));
      } else {
        OneSweepPerCall(buf, inputs[1..]);
        assert ([SweepAll] + Actions(buf, inputs[1..]))[1..] == Actions(buf, inputs[1..]);
      }
    }
  }

  // ---- the loop in its own form ---------------------------------------------

  /** `handle_line` on each line in turn, the k-th one meeting the k-th environment. */
  ghost function HandleAll(w: World, envs: nat -> Env, k: nat, decode: seq<Octet> -> string, lines: seq<seq<Octet>>)
    : World
    decreases |lines|
  {
    if lines == [] then w
    else HandleAll(ApplyAll(HandleLineOps(w, envs(k), decode(lines[0])), w), envs, k + 1, decode, lines[1..])
  }

  lemma HandleAllStep(w: World, envs: nat -> Env, k: nat, decode: seq<Octet> -> string, buf: seq<Octet>)
    requires NEWLINE in buf
    ensures var n := UpToNewline(buf);
            && n < |buf| && Residue(buf) == Residue(buf[n + 1..])
            && HandleAll(w, envs, k, decode, CompleteLines(buf)) ==
               HandleAll(ApplyAll(HandleLineOps(w, envs(k), decode(buf[..n])), w), envs, k + 1, decode,
                         CompleteLines(buf[n + 1..]))
  {
    var n := UpToNewline(buf);
    assert n < |buf|;
    assert CompleteLines(buf)[1..] == CompleteLines(buf[n + 1..]);
  }

  class Server {
    const manager: Manager
    const decode: seq<Octet> -> string
    var buf: seq<Octet>

    constructor (manager: Manager, decode: seq<Octet> -> string)
      ensures this.manager == manager && this.decode == decode && buf == []
    {
      this.manager, this.decode, this.buf := manager, decode, [];
    }

    /** The FIFO is readable: append the bytes and hand over every completed line. */
    method OnReadable(chunk: seq<Octet>, envs: nat -> Env)
      requires NEWLINE !in buf
      modifies this, manager
      ensures buf == Residue(old(buf) + chunk) && NEWLINE !in buf
      ensures manager.Now() == HandleAll(old(manager.Now()), envs, 0, decode, CompleteLines(old(buf) + chunk))
    {
      buf := buf + chunk;
      ghost var all := buf;
      var k: nat := 0;
      while NEWLINE in buf
        invariant Residue(all) == Residue(buf)
        invariant HandleAll(old(manager.Now()), envs, 0, decode, CompleteLines(all)) ==
                  HandleAll(manager.Now(), envs, k, decode, CompleteLines(buf))
        decreases |buf|
      {
        HandleAllStep(manager.Now(), envs, k, decode, buf);
        var n := UpToNewline(buf);
        var line := buf[..n];
        buf := buf[n + 1..];
        manager.HandleLine(envs(k), decode(line));
        k := k + 1;
      }
      UpToNewlineIs(buf, []);
    }
  }
}
