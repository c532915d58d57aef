// player.c: a reader appends lines to a linked queue, a second thread takes and prints
// them, under one mutex and one condition variable. Every interleaving of their steps is a
// run. A section under the mutex is cut where the other thread, which ends the stream without
// the mutex, can see it; outside the mutex every access to shared memory is its own step. A
// step that dereferences a null or freed pointer leads to a crashed state.

module Player {

  import opened Wrappers

  datatype Link = Null | Sentinel | At(addr: nat)
  datatype Node = Node(msg: string, next: Link)

  datatype Owner = Free | Reader | Printer

  // Where the reader stands in read_data and the printer in process_data.
  datatype ReaderPc =
    | RCheck | RLock | RLink | RFill | RUnlock | RSignal
    | RLoad | RMark | RReload | RFollow | RClose | RDone
  datatype PrinterPc =
    | PCheck | PLock | PTest | PWaiting | PWoken
    | PTake | PCompare | PClear | PUnlock | PPrint | PDone

  datatype State = State(
    heap: map<nat, Node>,
    start: Link,            // queue_start
    current: Link,          // queue_current
    lock: Owner,
    reader: ReaderPc,
    held: Link,             // the pointer the reader has fetched to end the stream
    printer: PrinterPc,
    release: Link,          // queue_release, local to the printer
    input: seq<string>,     // what getline is still to deliver
    printed: seq<string>,
    crashed: bool)

  datatype Step =
    | ReaderCheck | ReaderLock | ReaderLink(addr: nat) | ReaderFill | ReaderUnlock | ReaderSignal
    | ReaderLoad | ReaderMark | ReaderReload | ReaderFollow | ReaderClose
    | PrinterCheck | PrinterLock | PrinterTest | SpuriousWake | PrinterRelock
    | PrinterTake | PrinterCompare | PrinterClear | PrinterUnlock | PrinterPrint

  function Initial(input: seq<string>): State {
    State(map[], Null, Null, Free, RCheck, Null, PCheck, Null, input, [], false)
  }

  predicate Live(s: State, l: Link) {
    l.At? && l.addr in s.heap
  }

  // The state after a step, or None if the step is not possible now.
  function Apply(s: State, step: Step): Option<State> {
    if s.crashed then None
    else
      match step
      case ReaderCheck =>
        if s.reader != RCheck then None
        else Some(s.(reader := if s.input == [] then RLoad else RLock))
      case ReaderLock =>
        if s.reader != RLock || s.lock != Free then None
        else Some(s.(reader := RLink, lock := Reader))
      case ReaderLink(a) =>
        if s.reader != RLink || a in s.heap then None
        else if s.current == Null then
          Some(s.(heap := s.heap[a := Node("", Null)], current := At(a), start := At(a), reader := RFill))
        else if !Live(s, s.current) then Some(s.(crashed := true))
        else
          var c := s.current.addr;
          Some(s.(heap := s.heap[c := Node(s.heap[c].msg, At(a))][a := Node("", Null)],
                  current := At(a), reader := RFill))
      case ReaderFill =>
        if s.reader != RFill || s.input == [] then None
        else if !Live(s, s.current) then Some(s.(crashed := true))
        else
          var c := s.current.addr;
          Some(s.(heap := s.heap[c := Node(s.input[0], s.heap[c].next)], input := s.input[1..],
                  reader := RUnlock))
      case ReaderUnlock =>
        if s.reader != RUnlock then None else Some(s.(reader := RSignal, lock := Free))
      case ReaderSignal =>
        if s.reader != RSignal then None
        else Some(s.(reader := RCheck, printer := if s.printer == PWaiting then PWoken else s.printer))
      case ReaderLoad =>
        if s.reader != RLoad then None else Some(s.(held := s.current, reader := RMark))
      case ReaderMark =>
        if s.reader != RMark then None
        else if !Live(s, s.held) then Some(s.(crashed := true))
        else
          var c := s.held.addr;
          Some(s.(heap := s.heap[c := Node(s.heap[c].msg, Sentinel)], reader := RReload))
      case ReaderReload =>
        if s.reader != RReload then None else Some(s.(held := s.current, reader := RFollow))
      case ReaderFollow =>
        if s.reader != RFollow then None
        else if !Live(s, s.held) then Some(s.(crashed := true))
        else Some(s.(held := s.heap[s.held.addr].next, reader := RClose))
      case ReaderClose =>
        if s.reader != RClose then None else Some(s.(current := s.held, reader := RDone))
      case PrinterCheck =>
        if s.printer != PCheck then None
        else Some(s.(printer := if s.start == Sentinel then PDone else PLock))
      case PrinterLock =>
        if s.printer != PLock || s.lock != Free then None
        else Some(s.(printer := PTest, lock := Printer))
      case PrinterTest =>
        if s.printer != PTest then None
        else if s.start == Null then Some(s.(printer := PWaiting, lock := Free))
        else Some(s.(printer := PTake))
      case SpuriousWake =>
        if s.printer != PWaiting then None else Some(s.(printer := PWoken))
      case PrinterRelock =>
        if s.printer != PWoken || s.lock != Free then None
        else Some(s.(printer := PTest, lock := Printer))
      case PrinterTake =>
        if s.printer != PTake then None
        else if !Live(s, s.start) then Some(s.(crashed := true))
        else
          Some(s.(release := s.start, start := s.heap[s.start.addr].next, printer := PCompare))
      case PrinterCompare =>
        if s.printer != PCompare then None
        else Some(s.(printer := if s.release == s.current then PClear else PUnlock))
      case PrinterClear =>
        if s.printer != PClear then None else Some(s.(current := Null, printer := PUnlock))
      case PrinterUnlock =>
        if s.printer != PUnlock then None else Some(s.(printer := PPrint, lock := Free))
      case PrinterPrint =>
        if s.printer != PPrint then None
        else if !Live(s, s.release) then Some(s.(crashed := true))
        else Some(s.(printed := s.printed + [s.heap[s.release.addr].msg],
                     heap := s.heap - {s.release.addr}, printer := PCheck))
  }

  function Run(s: State, steps: seq<Step>): Option<State> {
    if steps == [] then Some(s)
    else
      match Run(s, steps[..|steps| - 1])
      case None => None
      case Some(t) => Apply(t, steps[|steps| - 1])
  }

  // ----- the queue -----

  // Line 102 has been executed.
  predicate Marked(s: State) {
    s.reader in {RReload, RFollow, RClose, RDone}
  }

  // What follows the last node of the queue.
  function LastNext(s: State): Link {
    if Marked(s) then Sentinel else Null
  }

  // queue_start leads through exactly the nodes q and then to `last`.
  ghost predicate Queue(heap: map<nat, Node>, start: Link, q: seq<nat>, last: Link) {
    && (forall i :: 0 <= i < |q| ==> q[i] in heap)
    && (forall i, j :: 0 <= i < j < |q| ==> q[i] != q[j])
    && (forall i :: 0 <= i < |q| - 1 ==> heap[q[i]].next == At(q[i + 1]))
    && (q != [] ==> start == At(q[0]) && heap[q[|q| - 1]].next == last)
  }

  function Messages(heap: map<nat, Node>, q: seq<nat>): (m: seq<string>)
    requires forall i :: 0 <= i < |q| ==> q[i] in heap
    ensures |m| == |q|
    ensures forall i :: 0 <= i < |q| ==> m[i] == heap[q[i]].msg
  {
    seq(|q|, i requires 0 <= i < |q| => heap[q[i]].msg)
  }

  predicate InHandNow(s: State) {
    s.printer in {PCompare, PClear, PUnlock, PPrint}
  }

  // The line the printer has taken and not yet printed.
  function InHand(s: State): seq<string> {
    if InHandNow(s) && Live(s, s.release) then [s.heap[s.release.addr].msg] else []
  }

  // The nodes whose line is there; the reader has linked the last one before filling it.
  function Filled(s: State, q: seq<nat>): seq<nat> {
    if s.reader == RFill && q != [] then q[..|q| - 1] else q
  }

  // Between lines 129 and 132 queue_current can still lead to a node that has been taken.
  function Current(s: State, q: seq<nat>): Link {
    if q != [] then At(q[|q| - 1])
    else if s.printer in {PCompare, PClear} then s.release
    else Null
  }

  ghost predicate Shape(s: State, q: seq<nat>) {
    && Queue(s.heap, s.start, q, LastNext(s))
    && (q == [] ==> s.start == Null || (Marked(s) && s.start == Sentinel))
    && (if s.reader == RDone then s.current in {Null, Sentinel} else s.current == Current(s, q))
    && (s.reader == RFill ==> q != [] && s.input != [])
    && (s.reader in {RLock, RLink} ==> s.input != [])
    && (s.reader in {RLoad, RMark} || Marked(s) ==> s.input == [])
    && (InHandNow(s) ==> Live(s, s.release) && s.release.addr !in q)
    && (s.printer == PTake ==> q != [])
    && (s.printer == PClear ==> q == [])
    && (s.printer in {PLock, PTest, PWaiting, PWoken} ==> s.start != Sentinel)
    && (s.printer == PDone ==> s.start == Sentinel)
  }

  // What the reader has fetched in lines 102 and 103.
  ghost predicate Ending(s: State, q: seq<nat>) {
    && (s.reader in {RMark, RFollow} && q != [] ==> s.held == At(q[|q| - 1]))
    && (s.reader == RMark ==> s.current in {Null, s.held})
    && (s.reader == RReload && Live(s, s.current) ==> s.heap[s.current.addr].next == Sentinel)
    && (s.reader == RFollow && Live(s, s.held) ==> s.heap[s.held.addr].next == Sentinel)
    && (s.reader == RClose ==> s.held == Sentinel)
  }

  // One holder at a time, and it is the one inside its critical section.
  ghost predicate Exclusive(s: State) {
    && (s.lock == Reader <==> s.reader in {RLink, RFill, RUnlock})
    && (s.lock == Printer <==> s.printer in {PTest, PTake, PCompare, PClear, PUnlock})
  }

  // A printer asleep although there is a line will be signalled.
  ghost predicate NoLostWakeUp(s: State, q: seq<nat>) {
    s.printer == PWaiting && q != [] ==> s.reader in {RFill, RUnlock, RSignal}
  }

  // Lines printed, in hand, queued and unread are all the lines, in order.
  ghost predicate Lines(s: State, q: seq<nat>, all: seq<string>) {
    && (forall i :: 0 <= i < |Filled(s, q)| ==> Filled(s, q)[i] in s.heap)
    && all == s.printed + InHand(s) + Messages(s.heap, Filled(s, q)) + s.input
  }

  ghost predicate Inv(s: State, q: seq<nat>, all: seq<string>) {
    && !s.crashed
    && Shape(s, q) && Ending(s, q) && Exclusive(s) && NoLostWakeUp(s, q) && Lines(s, q, all)
  }

  // ----- the steps that touch the queue -----

  lemma SameMessages(heap: map<nat, Node>, heap': map<nat, Node>, q: seq<nat>)
    requires forall i :: 0 <= i < |q| ==> q[i] in heap && q[i] in heap' && heap'[q[i]].msg == heap[q[i]].msg
    ensures Messages(heap', q) == Messages(heap, q)
  {
  }

  // A step that prints nothing, reads nothing and changes no message keeps the lines.
  lemma LinesKept(s: State, q: seq<nat>, t: State, q': seq<nat>, all: seq<string>)
    requires Lines(s, q, all) && Filled(t, q') == Filled(s, q)
    requires t.printed == s.printed && t.input == s.input && InHand(t) == InHand(s)
    requires forall x :: x in s.heap ==> x in t.heap && t.heap[x].msg == s.heap[x].msg
    ensures Lines(t, q', all)
  {
    hide Messages, InHand, Filled;
    SameMessages(s.heap, t.heap, Filled(s, q));
  }

  lemma HandKept(s: State, t: State)
    requires t.release == s.release && InHandNow(t) == InHandNow(s)
    requires InHandNow(s) ==> Live(s, s.release)
    requires forall x :: x in s.heap ==> x in t.heap && t.heap[x].msg == s.heap[x].msg
    ensures InHand(t) == InHand(s)
  {
  }

  // -- linking a node --

  lemma LinkKeeps(s: State, q: seq<nat>, all: seq<string>, a: nat)
    requires Inv(s, q, all) && s.reader == RLink && a !in s.heap
    ensures Apply(s, ReaderLink(a)).Some? && Inv(Apply(s, ReaderLink(a)).value, q + [a], all)
  {
    hide Messages, Queue, Apply, NoLostWakeUp, Exclusive, Lines;
    LinkShape(s, q, a);
    LinkEffect(s, q, a);
    var t := Apply(s, ReaderLink(a)).value;
    HandKept(s, t);
    assert Filled(t, q + [a]) == q;
    LinesKept(s, q, t, q + [a], all);
  }

  lemma LinkEffect(s: State, q: seq<nat>, a: nat)
    requires !s.crashed && Shape(s, q) && Exclusive(s) && s.reader == RLink && a !in s.heap
    ensures Apply(s, ReaderLink(a)).Some?
    ensures var t := Apply(s, ReaderLink(a)).value;
      && !t.crashed && t.reader == RFill && t.printer == s.printer && t.release == s.release
      && t.printed == s.printed && t.input == s.input
      && forall x :: x in s.heap ==> x in t.heap && t.heap[x].msg == s.heap[x].msg
  {
    hide Queue;
    InHeap(s.heap, s.start, q, Null);
  }

  lemma LinkShape(s: State, q: seq<nat>, a: nat)
    requires !s.crashed && Shape(s, q) && Exclusive(s) && NoLostWakeUp(s, q)
    requires s.reader == RLink && a !in s.heap
    ensures Apply(s, ReaderLink(a)).Some?
    ensures var t := Apply(s, ReaderLink(a)).value;
      !t.crashed && Shape(t, q + [a]) && Exclusive(t) && NoLostWakeUp(t, q + [a])
  {
    hide Queue;
    InHeap(s.heap, s.start, q, Null);
    LongerQueue(s.heap, s.start, q, a);
    assert q == [] ==> q + [a] == [a];
    assert forall x :: x in q + [a] ==> x == a || x in q;
  }

  lemma InHeap(heap: map<nat, Node>, start: Link, q: seq<nat>, last: Link)
    requires Queue(heap, start, q, last)
    ensures forall i :: 0 <= i < |q| ==> q[i] in heap
  {
  }

  lemma LongerQueue(heap: map<nat, Node>, start: Link, q: seq<nat>, a: nat)
    requires Queue(heap, start, q, Null) && a !in heap
    ensures q == [] ==> Queue(heap[a := Node("", Null)], At(a), [a], Null)
    ensures q != [] ==>
      var c := q[|q| - 1];
      c in heap && Queue(heap[c := Node(heap[c].msg, At(a))][a := Node("", Null)], start, q + [a], Null)
  {
  }

  // -- filling it --

  lemma FillKeeps(s: State, q: seq<nat>, all: seq<string>)
    requires Inv(s, q, all) && s.reader == RFill
    ensures Apply(s, ReaderFill).Some? && Inv(Apply(s, ReaderFill).value, q, all)
  {
    hide Messages, Queue, Apply, NoLostWakeUp, Exclusive, Lines, Shape, Ending;
    FillShape(s, q);
    FillLines(s, q, all);
  }

  lemma FillShape(s: State, q: seq<nat>)
    requires !s.crashed && Shape(s, q) && Exclusive(s) && NoLostWakeUp(s, q) && s.reader == RFill
    ensures Apply(s, ReaderFill).Some?
    ensures var t := Apply(s, ReaderFill).value;
      !t.crashed && Shape(t, q) && Ending(t, q) && Exclusive(t) && NoLostWakeUp(t, q)
  {
    hide Queue;
    InHeap(s.heap, s.start, q, Null);
    NewLast(s.heap, s.start, q, Null, Node(s.input[0], s.heap[q[|q| - 1]].next));
  }

  // Replacing the last node changes only what follows it.
  lemma NewLast(heap: map<nat, Node>, start: Link, q: seq<nat>, last: Link, node: Node)
    requires Queue(heap, start, q, last) && q != []
    ensures Queue(heap[q[|q| - 1] := node], start, q, node.next)
    ensures heap[q[|q| - 1]].next == last
  {
  }

  lemma FillLines(s: State, q: seq<nat>, all: seq<string>)
    requires !s.crashed && Shape(s, q) && Exclusive(s) && Lines(s, q, all) && s.reader == RFill
    ensures Apply(s, ReaderFill).Some? && Lines(Apply(s, ReaderFill).value, q, all)
  {
    hide Messages, Queue, Exclusive;
    InHeap(s.heap, s.start, q, Null);
    var t := Apply(s, ReaderFill).value;
    assert s.current == At(q[|q| - 1]);
    assert s.input == [s.input[0]] + s.input[1..];
    assert InHandNow(s) ==> s.release.addr in s.heap && s.release.addr != q[|q| - 1];
    assert InHand(t) == InHand(s);
    FilledMessages(s.heap, s.start, q, s.input[0]);
    assert Filled(t, q) == q && Filled(s, q) == q[..|q| - 1];
    FillRegroup(s.printed + InHand(s), Messages(s.heap, q[..|q| - 1]), s.input[0], s.input[1..], s.input);
  }

  lemma FillRegroup(a: seq<string>, b: seq<string>, line: string, rest: seq<string>, input: seq<string>)
    requires input == [line] + rest
    ensures a + b + input == a + (b + [line]) + rest
  {
  }

  lemma FilledMessages(heap: map<nat, Node>, start: Link, q: seq<nat>, line: string)
    requires Queue(heap, start, q, Null) && q != []
    ensures forall i :: 0 <= i < |q| ==> q[i] in heap
    ensures Messages(heap[q[|q| - 1] := Node(line, heap[q[|q| - 1]].next)], q)
         == Messages(heap, q[..|q| - 1]) + [line]
  {
  }

  // -- marking the end --

  lemma MarkKeeps(s: State, q: seq<nat>, all: seq<string>)
    requires Inv(s, q, all) && s.reader == RMark && Live(s, s.held)
    ensures Apply(s, ReaderMark).Some? && Inv(Apply(s, ReaderMark).value, q, all)
  {
    hide Messages, Queue, Lines, Shape, Ending;
    MarkShape(s, q);
    var t := Apply(s, ReaderMark).value;
    HandLive(s, q);
    HandKept(s, t);
    LinesKept(s, q, t, q, all);
  }

  lemma MarkShape(s: State, q: seq<nat>)
    requires !s.crashed && Shape(s, q) && Ending(s, q) && s.reader == RMark && Live(s, s.held)
    ensures Apply(s, ReaderMark).Some?
    ensures var t := Apply(s, ReaderMark).value; Shape(t, q) && Ending(t, q)
  {
    hide Queue;
    InHeap(s.heap, s.start, q, Null);
    var c := s.held.addr;
    if q != [] {
      NewLast(s.heap, s.start, q, Null, Node(s.heap[c].msg, Sentinel));
    } else {
      NoQueue(Apply(s, ReaderMark).value.heap, s.start, Sentinel);
    }
  }

  lemma NoQueue(heap: map<nat, Node>, start: Link, last: Link)
    ensures Queue(heap, start, [], last)
  {
  }

  lemma HandLive(s: State, q: seq<nat>)
    requires Shape(s, q)
    ensures InHandNow(s) ==> Live(s, s.release)
  {
  }

  // -- taking a node --

  lemma TakeKeeps(s: State, q: seq<nat>, all: seq<string>)
    requires Inv(s, q, all) && s.printer == PTake
    ensures q != [] && Apply(s, PrinterTake).Some? && Inv(Apply(s, PrinterTake).value, q[1..], all)
  {
    hide Messages, Queue, Apply, NoLostWakeUp, Exclusive, Lines, Shape, Ending;
    TakeShape(s, q);
    TakeLines(s, q, all);
  }

  lemma TakeShape(s: State, q: seq<nat>)
    requires !s.crashed && Shape(s, q) && Ending(s, q) && Exclusive(s) && NoLostWakeUp(s, q)
    requires s.printer == PTake
    ensures q != [] && Apply(s, PrinterTake).Some?
    ensures var t := Apply(s, PrinterTake).value;
      !t.crashed && Shape(t, q[1..]) && Ending(t, q[1..]) && Exclusive(t) && NoLostWakeUp(t, q[1..])
  {
    hide Queue;
    TailQueue(s.heap, s.start, q, LastNext(s));
  }

  lemma TailQueue(heap: map<nat, Node>, start: Link, q: seq<nat>, last: Link)
    requires Queue(heap, start, q, last) && q != []
    ensures Queue(heap, heap[q[0]].next, q[1..], last)
    ensures start == At(q[0]) && q[0] in heap && q[0] !in q[1..]
    ensures |q| == 1 ==> heap[q[0]].next == last
    ensures |q| > 1 ==> heap[q[0]].next == At(q[1]) && q[0] != q[|q| - 1]
  {
  }

  lemma TakeLines(s: State, q: seq<nat>, all: seq<string>)
    requires !s.crashed && Shape(s, q) && Exclusive(s) && Lines(s, q, all) && s.printer == PTake && q != []
    ensures Apply(s, PrinterTake).Some?
    ensures Lines(Apply(s, PrinterTake).value, q[1..], all)
  {
    hide Messages, Queue;
    TailQueue(s.heap, s.start, q, LastNext(s));
    InHeap(s.heap, s.start, q, LastNext(s));
    var t := Apply(s, PrinterTake).value;
    HeadMessage(s.heap, q);
    assert InHand(s) == [] && InHand(t) == [s.heap[q[0]].msg];
    Regroup(s.printed, [s.heap[q[0]].msg], Messages(s.heap, q[1..]), s.input);
  }

  lemma HeadMessage(heap: map<nat, Node>, q: seq<nat>)
    requires q != [] && forall i :: 0 <= i < |q| ==> q[i] in heap
    ensures Messages(heap, q) == [heap[q[0]].msg] + Messages(heap, q[1..])
  {
  }

  lemma Regroup(a: seq<string>, b: seq<string>, c: seq<string>, d: seq<string>)
    ensures a + [] + (b + c) + d == a + b + c + d
  {
  }

  // -- printing it --

  lemma PrintKeeps(s: State, q: seq<nat>, all: seq<string>)
    requires Inv(s, q, all) && s.printer == PPrint
    ensures Apply(s, PrinterPrint).Some? && Inv(Apply(s, PrinterPrint).value, q, all)
  {
    hide Messages, Queue;
    var t := Apply(s, PrinterPrint).value;
    FreedOutside(s.heap, s.start, q, LastNext(s), s.release.addr);
    InHeap(s.heap, s.start, q, LastNext(s));
    SameMessages(s.heap, t.heap, Filled(s, q));
    assert InHand(t) == [] && s.printed + InHand(s) == t.printed;
    assert t.printed + [] == t.printed;
  }

  lemma FreedOutside(heap: map<nat, Node>, start: Link, q: seq<nat>, last: Link, a: nat)
    requires Queue(heap, start, q, last) && a !in q
    ensures Queue(heap - {a}, start, q, last)
  {
  }

  // The steps that only move a program counter or the lock.
  lemma ReaderKeeps(s: State, q: seq<nat>, all: seq<string>, step: Step)
    requires Inv(s, q, all) && Apply(s, step).Some?
    requires step in {ReaderCheck, ReaderLock, ReaderUnlock, ReaderSignal}
    ensures Inv(Apply(s, step).value, q, all)
  {
    hide Messages, Queue, Lines;
    var t := Apply(s, step).value;
    HandKept(s, t);
    LinesKept(s, q, t, q, all);
  }

  // Those that move the pointer the reader has fetched.
  lemma EndKeeps(s: State, q: seq<nat>, all: seq<string>, step: Step)
    requires Inv(s, q, all) && Apply(s, step).Some? && !Apply(s, step).value.crashed
    requires step in {ReaderLoad, ReaderReload, ReaderFollow, ReaderClose}
    ensures Inv(Apply(s, step).value, q, all)
  {
    hide Messages, Queue, Lines;
    var t := Apply(s, step).value;
    LastNode(s.heap, s.start, q, LastNext(s));
    HandKept(s, t);
    LinesKept(s, q, t, q, all);
  }

  lemma LastNode(heap: map<nat, Node>, start: Link, q: seq<nat>, last: Link)
    requires Queue(heap, start, q, last)
    ensures q != [] ==> q[|q| - 1] in heap && heap[q[|q| - 1]].next == last
  {
  }

  lemma PrinterKeeps(s: State, q: seq<nat>, all: seq<string>, step: Step)
    requires Inv(s, q, all) && Apply(s, step).Some?
    requires step in {PrinterCheck, PrinterLock, PrinterTest, SpuriousWake, PrinterRelock, PrinterUnlock}
    ensures Inv(Apply(s, step).value, q, all)
  {
    hide Messages, Queue, Lines;
    var t := Apply(s, step).value;
    QueueStart(s.heap, s.start, q, LastNext(s));
    HandKept(s, t);
    LinesKept(s, q, t, q, all);
  }

  lemma ClearKeeps(s: State, q: seq<nat>, all: seq<string>, step: Step)
    requires Inv(s, q, all) && Apply(s, step).Some? && step in {PrinterCompare, PrinterClear}
    ensures Inv(Apply(s, step).value, q, all)
  {
    hide Messages, Queue, Lines;
    var t := Apply(s, step).value;
    HandKept(s, t);
    LinesKept(s, q, t, q, all);
  }

  lemma QueueStart(heap: map<nat, Node>, start: Link, q: seq<nat>, last: Link)
    requires Queue(heap, start, q, last)
    ensures q != [] ==> start == At(q[0])
  {
  }

  // The reader is about to follow a pointer that is null or leads to a freed node.
  predicate Doomed(s: State) {
    s.reader in {RMark, RFollow} && !Live(s, s.held)
  }

  // A step crashes exactly when it is the next one of a doomed reader, and then every node
  // has been taken; any other step keeps the invariant.
  lemma StepKeeps(s: State, q: seq<nat>, all: seq<string>, step: Step) returns (q': seq<nat>)
    requires Inv(s, q, all) && Apply(s, step).Some?
    ensures Apply(s, step).value.crashed <==> Doomed(s) && (step.ReaderMark? || step.ReaderFollow?)
    ensures Apply(s, step).value.crashed ==> q == []
    ensures !Apply(s, step).value.crashed ==> Inv(Apply(s, step).value, q', all)
  {
    hide Shape, Ending, NoLostWakeUp, Exclusive;
    q' := q;
    match step
    case ReaderLink(a) => LinkKeeps(s, q, all, a); q' := q + [a];
    case ReaderFill => FillKeeps(s, q, all);
    case PrinterTake => TakeKeeps(s, q, all); q' := q[1..];
    case PrinterPrint => PrintKeeps(s, q, all);
    case ReaderMark =>
      if Live(s, s.held) { MarkKeeps(s, q, all); } else { DoomedDrained(s, q); }
    case ReaderFollow =>
      if Live(s, s.held) { EndKeeps(s, q, all, step); } else { DoomedDrained(s, q); }
    case ReaderCheck => ReaderKeeps(s, q, all, step);
    case ReaderLock => ReaderKeeps(s, q, all, step);
    case ReaderUnlock => ReaderKeeps(s, q, all, step);
    case ReaderSignal => ReaderKeeps(s, q, all, step);
    case ReaderLoad => EndKeeps(s, q, all, step);
    case ReaderReload => EndKeeps(s, q, all, step);
    case ReaderClose => EndKeeps(s, q, all, step);
    case PrinterCompare => ClearKeeps(s, q, all, step);
    case PrinterClear => ClearKeeps(s, q, all, step);
    case _ => PrinterKeeps(s, q, all, step);
  }

  lemma DoomedDrained(s: State, q: seq<nat>)
    requires Shape(s, q) && Ending(s, q) && Doomed(s)
    ensures q == [] && s.input == []
  {
  }

  // ----- all runs -----

  lemma {:induction false} RunKeeps(input: seq<string>, steps: seq<Step>) returns (q: seq<nat>)
    requires Run(Initial(input), steps).Some?
    ensures var s := Run(Initial(input), steps).value; !s.crashed ==> Inv(s, q, input)
  {
    if steps == [] {
      q := [];
    } else {
      var before := steps[..|steps| - 1];
      var q0 := RunKeeps(input, before);
      var s := Run(Initial(input), before).value;
      q := StepKeeps(s, q0, input, steps[|steps| - 1]);
    }
  }

  // Under every interleaving: the lines printed, then the one in hand, then those in the
  // list from queue_start, then those still to be read, are the input in order; the list is
  // well formed and no wake-up is lost.
  lemma EveryRun(input: seq<string>, steps: seq<Step>)
    requires Run(Initial(input), steps).Some? && !Run(Initial(input), steps).value.crashed
    ensures var s := Run(Initial(input), steps).value; exists q: seq<nat> :: Inv(s, q, input)
  {
    var q := RunKeeps(input, steps);
  }

  // When the printer returns, everything has been printed.
  lemma AllPrinted(input: seq<string>, steps: seq<Step>)
    requires Run(Initial(input), steps).Some?
    requires var s := Run(Initial(input), steps).value; !s.crashed && s.printer == PDone
    ensures Run(Initial(input), steps).value.printed == input
  {
    var q := RunKeeps(input, steps);
    var s := Run(Initial(input), steps).value;
    assert s.start == Sentinel;
    assert q == [];
    assert Messages(s.heap, Filled(s, q)) == [];
  }

  // A run that crashes had every line taken by then: nothing is left in the queue or unread.
  lemma CrashOnlyWhenDrained(input: seq<string>, steps: seq<Step>)
    requires Run(Initial(input), steps).Some? && Run(Initial(input), steps).value.crashed
    ensures steps != [] && steps[|steps| - 1] in {ReaderMark, ReaderFollow}
    ensures var s := Run(Initial(input), steps).value; s.printed + InHand(s) == input
  {
    hide Shape, Ending, Exclusive, NoLostWakeUp, Apply;
    var before := steps[..|steps| - 1];
    var q := RunKeeps(input, before);
    var s, step := Run(Initial(input), before).value, steps[|steps| - 1];
    NoStepAfterCrash(s, step);
    var q' := StepKeeps(s, q, input, step);
    DrainedEnd(s, q, input, step);
  }

  lemma NoStepAfterCrash(s: State, step: Step)
    ensures Apply(s, step).Some? ==> !s.crashed
  {
  }

  lemma DrainedEnd(s: State, q: seq<nat>, all: seq<string>, step: Step)
    requires Inv(s, q, all) && Doomed(s) && step in {ReaderMark, ReaderFollow} && Apply(s, step).Some?
    ensures var t := Apply(s, step).value; t.printed + InHand(t) == all
  {
    DoomedDrained(s, q);
    assert Messages(s.heap, Filled(s, q)) == [];
  }

  // ----- who can move -----

  // The reader has returned, and the printer has too or waits for a signal.
  predicate Over(s: State) {
    s.reader == RDone && s.printer in {PWaiting, PDone}
  }

  // Some step is possible without a spurious wake-up exactly until then.
  lemma SomeoneMoves(s: State, q: seq<nat>, all: seq<string>)
    requires Inv(s, q, all)
    ensures (exists step: Step :: !step.SpuriousWake? && Apply(s, step).Some?) <==> !Over(s)
  {
    if !Over(s) {
      var step := Mover(s, q, all);
    }
  }

  lemma Mover(s: State, q: seq<nat>, all: seq<string>) returns (step: Step)
    requires Inv(s, q, all) && !Over(s)
    ensures !step.SpuriousWake? && Apply(s, step).Some?
    ensures Doomed(s) && s.printer !in {PWaiting, PDone} ==> step !in {ReaderMark, ReaderFollow}
  {
    hide Queue, Lines, Ending, NoLostWakeUp;
    if s.reader in {RLock, RDone} || (Doomed(s) && s.printer !in {PWaiting, PDone}) {
      step := LockOrPrinter(s);
    } else {
      step := ReaderMover(s);
    }
  }

  lemma ReaderMover(s: State) returns (step: Step)
    requires !s.crashed && s.reader !in {RLock, RDone} && (s.reader == RFill ==> s.input != [])
    ensures !step.SpuriousWake? && Apply(s, step).Some?
  {
    var a := FreshAddress(s.heap);
    match s.reader
    case RCheck => step := ReaderCheck;
    case RLink => step := ReaderLink(a);
    case RFill => step := ReaderFill;
    case RUnlock => step := ReaderUnlock;
    case RSignal => step := ReaderSignal;
    case RLoad => step := ReaderLoad;
    case RMark => step := ReaderMark;
    case RReload => step := ReaderReload;
    case RFollow => step := ReaderFollow;
    case RClose => step := ReaderClose;
  }

  // Outside the reader's critical section the lock is free or the printer can move.
  lemma LockOrPrinter(s: State) returns (step: Step)
    requires !s.crashed && Exclusive(s) && s.reader !in {RLink, RFill, RUnlock}
    requires s.reader == RLock || s.printer !in {PWaiting, PDone}
    ensures !step.SpuriousWake? && Apply(s, step).Some? && step !in {ReaderMark, ReaderFollow}
  {
    if s.reader == RLock && s.lock == Free {
      step := ReaderLock;
    } else {
      match s.printer
      case PCheck => step := PrinterCheck;
      case PLock => step := PrinterLock;
      case PTest => step := PrinterTest;
      case PWoken => step := PrinterRelock;
      case PTake => step := PrinterTake;
      case PCompare => step := PrinterCompare;
      case PClear => step := PrinterClear;
      case PUnlock => step := PrinterUnlock;
      case PPrint => step := PrinterPrint;
    }
  }

  lemma FreshAddress(heap: map<nat, Node>) returns (a: nat)
    ensures a !in heap
  {
    a := Above(heap.Keys);
  }

  lemma {:induction false} Above(addrs: set<nat>) returns (a: nat)
    ensures forall x :: x in addrs ==> x < a
  {
    if addrs == {} {
      a := 0;
    } else {
      var x :| x in addrs;
      var b := Above(addrs - {x});
      a := if x < b then b else x + 1;
      forall y | y in addrs
        ensures y < a
      {
        assert y == x || y in addrs - {x};
      }
    }
  }

  // And some step is possible that does not crash, until the reader has returned or is
  // doomed and the printer has returned or waits: in no other state is there a deadlock or
  // is the crash the only way on.
  lemma SomeoneMovesSafely(s: State, q: seq<nat>, all: seq<string>)
    requires Inv(s, q, all)
    ensures (exists step: Step :: !step.SpuriousWake? && Apply(s, step).Some? && !Apply(s, step).value.crashed)
      <==> !(s.printer in {PWaiting, PDone} && (s.reader == RDone || Doomed(s)))
  {
    if s.printer !in {PWaiting, PDone} || !(s.reader == RDone || Doomed(s)) {
      var step := Mover(s, q, all);
      var q' := StepKeeps(s, q, all, step);
    }
  }

  // ----- every run ends -----

  // What the reader has left to do: six steps a line and six to end the stream.
  function ReaderRank(s: State): nat {
    6 * |s.input| +
      match s.reader
      case RCheck => 6
      case RLock => 5
      case RLink => 4
      case RFill => 3
      case RUnlock => 8
      case RSignal => 7
      case RLoad => 5
      case RMark => 4
      case RReload => 3
      case RFollow => 2
      case RClose => 1
      case RDone => 0
  }

  // What the printer has left to do before it has to wait: eight steps a line still to take.
  function PrinterRank(s: State, lines: int): int {
    8 * (lines - |s.printed| - |InHand(s)|) +
      match s.printer
      case PCheck => 4
      case PLock => 3
      case PTest => 2
      case PWaiting => 1
      case PWoken => 3
      case PTake => 1
      case PCompare => 8
      case PClear => 7
      case PUnlock => 6
      case PPrint => 5
      case PDone => 0
  }

  // One signal can set the printer back by two steps.
  function Rank(s: State, lines: int): int {
    if s.crashed then 0 else 3 * ReaderRank(s) + PrinterRank(s, lines)
  }

  lemma RankPositive(s: State, q: seq<nat>, all: seq<string>)
    requires Inv(s, q, all)
    ensures |s.printed| + |InHand(s)| <= |all|
    ensures Rank(s, |all|) >= 0
  {
    hide Shape, Queue, Messages;
  }

  // A step lowers the rank, except that a spurious wake-up raises it by two.
  lemma RankFalls(s: State, q: seq<nat>, all: seq<string>, step: Step)
    requires Inv(s, q, all) && Apply(s, step).Some?
    ensures Rank(Apply(s, step).value, |all|) + 1
         <= Rank(s, |all|) + if step.SpuriousWake? then 3 else 0
  {
    hide Shape, Ending, Exclusive, Messages, Lines, NoLostWakeUp, InHand, Queue, Filled;
    RankPositive(s, q, all);
    var q' := StepKeeps(s, q, all, step);
    if !Apply(s, step).value.crashed {
      LinesInHand(s, q, all, step);
    }
  }

  // Only taking a line puts one in hand, and printing does not change how many have been taken.
  lemma LinesInHand(s: State, q: seq<nat>, all: seq<string>, step: Step)
    requires Inv(s, q, all) && Apply(s, step).Some? && !Apply(s, step).value.crashed
    ensures var t := Apply(s, step).value;
      |t.printed| + |InHand(t)| == |s.printed| + |InHand(s)| + (if step.PrinterTake? then 1 else 0)
  {
    hide Queue, Messages, Lines, NoLostWakeUp, Ending, Shape, Exclusive;
    HandLive(s, q);
  }

  function Spurious(steps: seq<Step>): nat {
    if steps == [] then 0
    else Spurious(steps[..|steps| - 1]) + if steps[|steps| - 1].SpuriousWake? then 1 else 0
  }

  // No run is longer than 26 steps a line, 22 more, and three for every spurious wake-up.
  lemma {:induction false} RunsAreBounded(input: seq<string>, steps: seq<Step>)
    requires Run(Initial(input), steps).Some?
    ensures |steps| + Rank(Run(Initial(input), steps).value, |input|)
         <= 26 * |input| + 22 + 3 * Spurious(steps)
    ensures |steps| <= 26 * |input| + 22 + 3 * Spurious(steps)
  {
    hide Apply, Inv, PrinterRank, ReaderRank;
    var s := Run(Initial(input), steps).value;
    if steps == [] {
      InitialRank(input);
    } else {
      var before, step := steps[..|steps| - 1], steps[|steps| - 1];
      RunsAreBounded(input, before);
      var s0 := Run(Initial(input), before).value;
      NoStepAfterCrash(s0, step);
      var q := RunKeeps(input, before);
      RankFalls(s0, q, input, step);
    }
    if !s.crashed {
      var q := RunKeeps(input, steps);
      RankPositive(s, q, input);
    }
  }

  lemma InitialRank(input: seq<string>)
    ensures Rank(Initial(input), |input|) == 26 * |input| + 22
  {
  }

  // ----- how a run ends -----

  // The reader fetches queue_current after the printer has cleared it, or the printer frees
  // the node the reader has fetched and not yet used.
  predicate DoomsReader(s: State, step: Step) {
    || (step in {ReaderLoad, ReaderReload} && s.current == Null)
    || (step.PrinterPrint? && s.reader in {RMark, RFollow} && s.held == s.release)
  }

  // The reader marks the end with queue_start already null, on a node that has been taken.
  predicate MarksLate(s: State, step: Step) {
    step.ReaderMark? && s.start == Null
  }

  // Nobody will set queue_start any more.
  predicate Stranded(s: State) {
    Marked(s) && s.start == Null
  }

  ghost predicate DoomsAt(input: seq<string>, steps: seq<Step>, i: nat)
    requires i < |steps|
  {
    Run(Initial(input), steps[..i]).Some? && DoomsReader(Run(Initial(input), steps[..i]).value, steps[i])
  }

  ghost predicate MarksLateAt(input: seq<string>, steps: seq<Step>, i: nat)
    requires i < |steps|
  {
    Run(Initial(input), steps[..i]).Some? && MarksLate(Run(Initial(input), steps[..i]).value, steps[i])
  }

  // A run dooms the reader, and then can only crash, exactly when one of its steps does.
  lemma {:induction false} DoomedExactlyWhen(input: seq<string>, steps: seq<Step>)
    requires Run(Initial(input), steps).Some?
    ensures var s := Run(Initial(input), steps).value;
      s.crashed || Doomed(s) <==> exists i :: 0 <= i < |steps| && DoomsAt(input, steps, i)
  {
    hide Apply, Inv, Doomed, DoomsReader;
    if steps == [] {
      NotDoomedYet(input);
    } else {
      var n := |steps| - 1;
      var before := steps[..n];
      DoomedExactlyWhen(input, before);
      var s := Run(Initial(input), before).value;
      NoStepAfterCrash(s, steps[n]);
      var q := RunKeeps(input, before);
      DoomedStep(s, q, input, steps[n]);
      assert forall i :: 0 <= i < n ==> before[..i] == steps[..i];
      assert forall i :: 0 <= i < n ==> (DoomsAt(input, before, i) <==> DoomsAt(input, steps, i));
      assert DoomsAt(input, steps, n) <==> DoomsReader(s, steps[n]);
    }
  }

  lemma NotDoomedYet(input: seq<string>)
    ensures !Initial(input).crashed && !Doomed(Initial(input))
  {
  }

  lemma DoomedStep(s: State, q: seq<nat>, all: seq<string>, step: Step)
    requires Inv(s, q, all) && Apply(s, step).Some?
    ensures var t := Apply(s, step).value;
      t.crashed || Doomed(t) <==> Doomed(s) || DoomsReader(s, step)
  {
    hide Queue, Lines, Ending, NoLostWakeUp;
    var q' := StepKeeps(s, q, all, step);
    InHeap(s.heap, s.start, q, LastNext(s));
  }

  // A run that has not crashed leaves the printer stranded exactly when it has marked late.
  lemma {:induction false} StrandedExactlyWhen(input: seq<string>, steps: seq<Step>)
    requires Run(Initial(input), steps).Some? && !Run(Initial(input), steps).value.crashed
    ensures Stranded(Run(Initial(input), steps).value)
      <==> exists i :: 0 <= i < |steps| && MarksLateAt(input, steps, i)
  {
    hide Apply, Inv, Stranded, MarksLate;
    if steps == [] {
      NotStrandedYet(input);
    } else {
      var n := |steps| - 1;
      var before := steps[..n];
      var s := Run(Initial(input), before).value;
      NoStepAfterCrash(s, steps[n]);
      StrandedExactlyWhen(input, before);
      var q := RunKeeps(input, before);
      StrandedStep(s, q, input, steps[n]);
      assert forall i :: 0 <= i < n ==> before[..i] == steps[..i];
      assert forall i :: 0 <= i < n ==> (MarksLateAt(input, before, i) <==> MarksLateAt(input, steps, i));
      assert MarksLateAt(input, steps, n) <==> MarksLate(s, steps[n]);
    }
  }

  lemma NotStrandedYet(input: seq<string>)
    ensures !Stranded(Initial(input))
  {
  }

  lemma StrandedStep(s: State, q: seq<nat>, all: seq<string>, step: Step)
    requires Inv(s, q, all) && Apply(s, step).Some? && !Apply(s, step).value.crashed
    ensures Stranded(Apply(s, step).value) <==> Stranded(s) || MarksLate(s, step)
  {
    hide Queue, Lines, Ending, NoLostWakeUp;
    if step.PrinterTake? {
      QueueStart(s.heap, s.start, q, LastNext(s));
      TailQueue(s.heap, s.start, q, LastNext(s));
    }
  }

  // Every run that is carried on as long as a thread can move ends, without waiting for a
  // spurious wake-up, in one of three ways, every line being taken. It crashes exactly when
  // a step has doomed the reader. Otherwise the input is printed, and the printer waits for
  // ever exactly when the reader has marked the end on a node already taken; if it has not,
  // both threads have returned.
  lemma MaximalRunsEnd(input: seq<string>, steps: seq<Step>)
    requires Run(Initial(input), steps).Some?
    requires forall step: Step :: Apply(Run(Initial(input), steps).value, step).Some? ==> step.SpuriousWake?
    ensures var s := Run(Initial(input), steps).value;
      && s.printed + InHand(s) == input
      && (s.crashed <==> exists i :: 0 <= i < |steps| && DoomsAt(input, steps, i))
      && (!s.crashed ==>
        && s.printed == input && s.reader == RDone
        && s.printer == (if exists i :: 0 <= i < |steps| && MarksLateAt(input, steps, i) then PWaiting else PDone))
  {
    hide Apply, Inv, DoomsAt, MarksLateAt;
    var s := Run(Initial(input), steps).value;
    DoomedExactlyWhen(input, steps);
    if s.crashed {
      CrashOnlyWhenDrained(input, steps);
    } else {
      var q := RunKeeps(input, steps);
      SomeoneMoves(s, q, input);
      StrandedExactlyWhen(input, steps);
      OverPrinted(s, q, input);
    }
  }

  lemma OverPrinted(s: State, q: seq<nat>, all: seq<string>)
    requires Inv(s, q, all) && Over(s)
    ensures s.printed == all && InHand(s) == []
    ensures s.printer == if Stranded(s) then PWaiting else PDone
  {
    QueueStart(s.heap, s.start, q, LastNext(s));
    assert q == [];
    assert Messages(s.heap, Filled(s, q)) == [];
  }

  // ----- each ending happens -----

  // One more step of a run.
  lemma Then(s0: State, steps: seq<Step>, s: State, step: Step) returns (longer: seq<Step>, t: State)
    requires Run(s0, steps) == Some(s) && Apply(s, step).Some?
    ensures longer == steps + [step] && t == Apply(s, step).value && Run(s0, longer) == Some(t)
  {
    longer, t := steps + [step], Apply(s, step).value;
    assert longer[..|longer| - 1] == steps;
  }

  // The reader appends the only line and finds no other.
  lemma Appended(line: string) returns (steps: seq<Step>, s: State)
    ensures Run(Initial([line]), steps) == Some(s)
    ensures s == State(map[1 := Node(line, Null)], At(1), At(1), Free, RLoad, Null, PCheck, Null, [], [], false)
  {
    hide Run;
    var s0 := Initial([line]);
    RunNothing(s0);
    steps, s := [], s0;
    steps, s := Then(s0, steps, s, ReaderCheck);
    steps, s := Then(s0, steps, s, ReaderLock);
    steps, s := Then(s0, steps, s, ReaderLink(1));
    steps, s := Then(s0, steps, s, ReaderFill);
    steps, s := Then(s0, steps, s, ReaderUnlock);
    steps, s := Then(s0, steps, s, ReaderSignal);
    steps, s := Then(s0, steps, s, ReaderCheck);
    assert s.heap == map[1 := Node(line, Null)];
  }

  lemma RunNothing(s: State)
    ensures Run(s, []) == Some(s)
  {
  }

  // The printer executes lines 113 to 129 and so takes the first node.
  lemma PrinterTakes(s0: State, before: seq<Step>, s: State) returns (steps: seq<Step>, t: State)
    requires Run(s0, before) == Some(s) && !s.crashed
    requires s.printer == PCheck && s.lock == Free && Live(s, s.start)
    ensures Run(s0, steps) == Some(t)
    ensures t == s.(release := s.start, start := s.heap[s.start.addr].next, lock := Printer, printer := PCompare)
  {
    hide Run;
    steps, t := Then(s0, before, s, PrinterCheck);
    steps, t := Then(s0, steps, t, PrinterLock);
    steps, t := Then(s0, steps, t, PrinterTest);
    steps, t := Then(s0, steps, t, PrinterTake);
  }

  // The reader executes lines 102 and 103.
  lemma ReaderEnds(s0: State, before: seq<Step>, s: State) returns (steps: seq<Step>, t: State)
    requires Run(s0, before) == Some(s) && !s.crashed && s.reader == RLoad && Live(s, s.current)
    ensures Run(s0, steps) == Some(t)
    ensures var c := s.current.addr;
      t == s.(heap := s.heap[c := Node(s.heap[c].msg, Sentinel)], current := Sentinel, held := Sentinel,
              reader := RDone)
  {
    hide Run;
    steps, t := Then(s0, before, s, ReaderLoad);
    steps, t := Then(s0, steps, t, ReaderMark);
    steps, t := Then(s0, steps, t, ReaderReload);
    steps, t := Then(s0, steps, t, ReaderFollow);
    steps, t := Then(s0, steps, t, ReaderClose);
  }

  // With queue_current moved away the printer prints its line and comes back to line 113.
  lemma PrinterPrints(s0: State, before: seq<Step>, s: State) returns (steps: seq<Step>, t: State)
    requires Run(s0, before) == Some(s) && !s.crashed
    requires s.printer == PCompare && Live(s, s.release) && s.current == Sentinel
    ensures Run(s0, steps) == Some(t)
    ensures t == s.(lock := Free, printer := PCheck, printed := s.printed + [s.heap[s.release.addr].msg],
                    heap := s.heap - {s.release.addr})
  {
    hide Run;
    steps, t := Then(s0, before, s, PrinterCompare);
    steps, t := Then(s0, steps, t, PrinterUnlock);
    steps, t := Then(s0, steps, t, PrinterPrint);
  }

  // If the printer goes on to clear queue_current, the reader crashes at line 102.
  lemma ReaderCanCrash(line: string) returns (steps: seq<Step>)
    ensures Run(Initial([line]), steps).Some? && Run(Initial([line]), steps).value.crashed
  {
    hide Run;
    var s0 := Initial([line]);
    var s: State;
    steps, s := Appended(line);
    steps, s := PrinterTakes(s0, steps, s);
    steps, s := Then(s0, steps, s, PrinterCompare);
    steps, s := Then(s0, steps, s, PrinterClear);
    steps, s := Then(s0, steps, s, ReaderLoad);
    steps, s := Then(s0, steps, s, ReaderMark);
  }

  // If the reader executes lines 102 and 103 before the printer tests at line 130, the line is
  // printed, the reader returns, and the printer waits with nobody left to signal.
  lemma PrinterCanHang(line: string) returns (steps: seq<Step>)
    ensures Run(Initial([line]), steps).Some?
    ensures var s := Run(Initial([line]), steps).value;
      && !s.crashed && s.reader == RDone && s.printer == PWaiting && s.start == Null
      && s.printed == [line]
      && forall step: Step :: Apply(s, step).Some? ==> step.SpuriousWake?
  {
    hide Run;
    var s0 := Initial([line]);
    var s: State;
    steps, s := Appended(line);
    steps, s := PrinterTakes(s0, steps, s);
    steps, s := ReaderEnds(s0, steps, s);
    steps, s := PrinterPrints(s0, steps, s);
    steps, s := Then(s0, steps, s, PrinterCheck);
    steps, s := Then(s0, steps, s, PrinterLock);
    steps, s := Then(s0, steps, s, PrinterTest);
  }

  // A spurious wake-up does not help: the printer tests queue_start and waits again.
  lemma WakingIsNoHelp(s: State)
    requires !s.crashed && s.reader == RDone && s.printer == PWaiting && s.start == Null && s.lock == Free
    ensures Run(s, [SpuriousWake, PrinterRelock, PrinterTest]) == Some(s)
  {
    hide Run;
    var steps, t := [], s;
    RunNothing(s);
    steps, t := Then(s, steps, t, SpuriousWake);
    steps, t := Then(s, steps, t, PrinterRelock);
    steps, t := Then(s, steps, t, PrinterTest);
    assert steps == [SpuriousWake, PrinterRelock, PrinterTest];
  }

  // If the reader executes both lines before the printer takes the node, both threads return.
  lemma BothCanReturn(line: string) returns (steps: seq<Step>)
    ensures Run(Initial([line]), steps).Some?
    ensures var s := Run(Initial([line]), steps).value;
      !s.crashed && s.reader == RDone && s.printer == PDone && s.printed == [line]
  {
    hide Run;
    var s0 := Initial([line]);
    var s: State;
    steps, s := Appended(line);
    steps, s := ReaderEnds(s0, steps, s);
    steps, s := PrinterTakes(s0, steps, s);
    steps, s := PrinterPrints(s0, steps, s);
    steps, s := Then(s0, steps, s, PrinterCheck);
  }
}
