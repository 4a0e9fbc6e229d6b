/** Critical sections on one core: a machine that may take an interrupt between
    any two instructions while the interrupt flag is set. */
module Interrupts {
  import opened Machine
  import opened Transcript

  datatype Counter = Ticks | Keys

  /** The steps that matter: `without_interrupts` is `SaveFlag`, `ClearIfSaved`, the
      body, `RestoreIfSaved`; `counter += 1` is a `Load` and a `Store`. */
  datatype Instr =
    | SaveFlag | ClearIfSaved | RestoreIfSaved
    | Send(msg: seq<uint8>, k: nat)
    | Load(counter: Counter) | Store(counter: Counter)
    | Read(counter: Counter) | Enable | Other

  // --------------------------------------------------------------------- code

  datatype Stmt =
    | Print(text: seq<uint8>)
    | Critical(body: seq<Stmt>)
    | ReadCounter(counter: Counter)
    | EnableInterrupts
    | Compute

  function Sends(msg: seq<uint8>, k: nat): seq<Instr>
    decreases |msg| - k
  {
    if k >= |msg| then [] else [Send(msg, k)] + Sends(msg, k + 1)
  }

  function Section(body: seq<Instr>): seq<Instr> {
    [SaveFlag, ClearIfSaved] + body + [RestoreIfSaved]
  }

  function CompileOne(s: Stmt): seq<Instr>
    decreases s, 0
  {
    match s
    case Print(text) => Section(Sends(Crlf(text), 0))
    case Critical(body) => Section(Compile(body))
    case ReadCounter(c) => Section([Read(c)])
    case EnableInterrupts => [Enable]
    case Compute => [Other]
  }

  function Compile(body: seq<Stmt>): seq<Instr>
    decreases body, 1
  {
    if body == [] then [] else CompileOne(body[0]) + Compile(body[1..])
  }

  /** Interrupts are enabled by hand only outside every critical section. */
  predicate EnablesOutside(body: seq<Stmt>, outside: bool)
    decreases body
  {
    body == [] ||
    ((match body[0]
      case EnableInterrupts => outside
      case Critical(inner) => EnablesOutside(inner, false)
      case _ => true)
     && EnablesOutside(body[1..], outside))
  }

  datatype Irq = Timer | Keyboard(key: Option<seq<uint8>>)

  /** `timer_handler` and `keyboard_handler`, up to and including end-of-interrupt. */
  function Handler(irq: Irq): seq<Instr> {
    match irq
    case Timer => [Load(Ticks), Store(Ticks), Other]
    case Keyboard(None) => [Other, Other]
    case Keyboard(Some(text)) => [Other, Load(Keys), Store(Keys)] + CompileOne(Print(text)) + [Other]
  }

  // ------------------------------------------------------------------- machine

  /** An activation: main, or a handler. `saved` holds the `was_enabled` locals of
      the critical sections it is in; `flags` is what `iretq` will restore. */
  datatype Context = Context(code: seq<Instr>, saved: seq<bool>, reg: nat, base: bool, flags: bool)

  datatype Entry = Entry(fromMain: bool, msg: seq<uint8>)

  datatype Counts = Counts(ticks: nat, keys: nat) {
    function Get(c: Counter): nat { match c case Ticks => ticks case Keys => keys }

    function Set(c: Counter, v: nat): Counts {
      match c case Ticks => this.(ticks := v) case Keys => this.(keys := v)
    }

    function Plus(irq: Irq): Counts {
      match irq
      case Timer => this.(ticks := ticks + 1)
      case Keyboard(None) => this
      case Keyboard(Some(_)) => this.(keys := keys + 1)
    }
  }

  /** `top` is running; `below` are the contexts it interrupted, main first. `base`
      in a context is its flag outside every section. `taken` counts interrupts by
      the counter they are to increment; `log` lists the messages completed. */
  datatype Cpu = Cpu(top: Context, below: seq<Context>, iflag: bool, count: Counts, taken: Counts,
                     sent: seq<uint8>, log: seq<Entry>)

  datatype Event = Execute | Interrupt(irq: Irq) | Return

  function Main(s: Cpu): Context {
    if s.below == [] then s.top else s.below[0]
  }

  predicate Enabled(s: Cpu, e: Event) {
    match e
    case Execute => s.top.code != [] &&
                    (s.top.code[0].RestoreIfSaved? || s.top.code[0].ClearIfSaved? ==> s.top.saved != [])
                    && (s.top.code[0].Send? ==> s.top.code[0].k < |s.top.code[0].msg|)
    case Interrupt(_) => s.iflag
    case Return => s.below != [] && s.top.code == []
  }

  function ExecuteTop(s: Cpu): Cpu
    requires Enabled(s, Execute)
  {
    var c := s.top.(code := s.top.code[1..]);
    match s.top.code[0]
    case SaveFlag => s.(top := c.(saved := c.saved + [s.iflag]))
    case ClearIfSaved => s.(top := c, iflag := if Last(c.saved) then false else s.iflag)
    case RestoreIfSaved => s.(top := c.(saved := ButLast(c.saved)), iflag := if Last(c.saved) then true else s.iflag)
    case Send(msg, k) =>
      s.(top := c, sent := s.sent + [msg[k]],
         log := if k + 1 == |msg| then s.log + [Entry(s.below == [], msg)] else s.log)
    case Load(i) => s.(top := c.(reg := s.count.Get(i)))
    case Store(i) => s.(top := c, count := s.count.Set(i, c.reg + 1))
    case Enable => s.(top := c.(base := true), iflag := true)
    case Read(i) => s.(top := c.(reg := s.count.Get(i)))
    case Other => s.(top := c)
  }

  function Apply(s: Cpu, e: Event): Cpu
    requires Enabled(s, e)
  {
    match e
    case Execute => ExecuteTop(s)
    case Interrupt(irq) =>
      s.(top := Context(Handler(irq), [], 0, false, s.iflag), below := s.below + [s.top], iflag := false,
         taken := s.taken.Plus(irq))
    case Return => s.(top := Last(s.below), below := ButLast(s.below), iflag := s.top.flags)
  }

  // ----------------------------------------------------------------- code shape

  /** The next instruction continues a message already begun. */
  predicate MidMessage(code: seq<Instr>) {
    code != [] && code[0].Send? && code[0].k > 0
  }

  /** Code at section depth `d`: sections nest and close, messages are sent whole and
      inside a section, and a `Load` is followed by its `Store`. */
  predicate Shaped(code: seq<Instr>, d: nat, main: bool)
    decreases |code|
  {
    if code == [] then d == 0 else
    var t := code[1..];
    match code[0]
    case SaveFlag => t != [] && t[0] == ClearIfSaved && !MidMessage(t[1..]) && Shaped(t[1..], d + 1, main)
    case RestoreIfSaved => d >= 1 && !MidMessage(t) && Shaped(t, d - 1, main)
    case Send(msg, k) =>
      && d >= 1 && k < |msg| && Shaped(t, d, main)
      && (if k + 1 < |msg| then t != [] && t[0] == Send(msg, k + 1) else !MidMessage(t))
    case Load(c) => !main && t != [] && t[0] == Store(c) && !MidMessage(t[1..]) && Shaped(t[1..], d, main)
    case Enable => main && d == 0 && !MidMessage(t) && Shaped(t, d, main)
    case Read(_) => d >= 1 && !MidMessage(t) && Shaped(t, d, main)
    case Other => !MidMessage(t) && Shaped(t, d, main)
    case _ => false
  }

  predicate AtClear(c: Context) { c.code != [] && c.code[0] == ClearIfSaved }

  predicate AtStore(c: Context) { c.code != [] && c.code[0].Store? }

  /** A context between two instructions of shaped code. */
  predicate Ready(c: Context, main: bool) {
    if AtClear(c) then
      c.saved != [] && !MidMessage(c.code[1..]) && Shaped(c.code[1..], |c.saved|, main)
    else if AtStore(c) then
      !main && !MidMessage(c.code[1..]) && Shaped(c.code[1..], |c.saved|, main)
    else Shaped(c.code, |c.saved|, main)
  }

  /** The flag while `c` runs: off from `ClearIfSaved` of the outermost section to its
      `RestoreIfSaved`, and otherwise what it is outside. */
  predicate FlagOf(c: Context) {
    c.base && (c.saved == [] || (|c.saved| == 1 && AtClear(c)))
  }

  /** Only the outermost section can have found interrupts enabled. */
  predicate SavedFlags(c: Context) {
    forall i :: 0 <= i < |c.saved| ==> c.saved[i] == (i == 0 && c.base)
  }

  function Stores(code: seq<Instr>, c: Counter): nat {
    if code == [] then 0 else One(code[0] == Store(c)) + Stores(code[1..], c)
  }

  /** Increments the running handler has still to make. */
  function Due(s: Cpu, c: Counter): nat {
    if s.below == [] then 0 else Stores(s.top.code, c)
  }

  function Flatten(log: seq<Entry>): seq<uint8> {
    if log == [] then [] else Flatten(ButLast(log)) + Last(log).msg
  }

  /** What has been sent of the message in progress. */
  function Partial(code: seq<Instr>): seq<uint8> {
    if MidMessage(code) && code[0].k <= |code[0].msg| then code[0].msg[..code[0].k] else []
  }

  /** The running context is in shape and the flag is its own. */
  ghost predicate TopSound(s: Cpu) {
    && Ready(s.top, s.below == []) && SavedFlags(s.top) && s.iflag == FlagOf(s.top)
    && (AtStore(s.top) ==> s.top.reg == s.count.Get(s.top.code[0].counter))
  }

  /** Only main is ever interrupted, and only where its flag is set. */
  ghost predicate BelowSound(s: Cpu) {
    s.below != [] ==>
      && |s.below| == 1 && Ready(s.below[0], true) && SavedFlags(s.below[0]) && FlagOf(s.below[0])
      && !s.top.base && s.top.flags
  }

  ghost predicate CountsSound(s: Cpu) {
    forall c :: s.taken.Get(c) == s.count.Get(c) + Due(s, c)
  }

  ghost predicate OutputSound(s: Cpu) {
    s.sent == Flatten(s.log) + Partial(s.top.code)
  }

  ghost predicate Inv(s: Cpu) {
    TopSound(s) && BelowSound(s) && CountsSound(s) && OutputSound(s)
  }

  // -------------------------------------------------------------- shape of code

  lemma SendCons(msg: seq<uint8>, k: nat, tail: seq<Instr>, d: nat, main: bool)
    requires d >= 1 && k < |msg| && Shaped(tail, d, main)
    requires if k + 1 < |msg| then tail != [] && tail[0] == Send(msg, k + 1) else !MidMessage(tail)
    ensures Shaped([Send(msg, k)] + tail, d, main)
  {
    assert ([Send(msg, k)] + tail)[1..] == tail;
  }

  lemma {:induction false} SendsShaped(msg: seq<uint8>, k: nat, rest: seq<Instr>, d: nat, main: bool)
    requires d >= 1 && Shaped(rest, d, main) && !MidMessage(rest)
    ensures Shaped(Sends(msg, k) + rest, d, main)
    ensures k == 0 ==> !MidMessage(Sends(msg, k) + rest)
    ensures k < |msg| ==> (Sends(msg, k) + rest)[0] == Send(msg, k)
    decreases |msg| - k
  {
    if k >= |msg| {
      assert Sends(msg, k) + rest == rest;
    } else {
      SendsShaped(msg, k + 1, rest, d, main);
      var tail := Sends(msg, k + 1) + rest;
      assert k + 1 >= |msg| ==> tail == rest;
      SendCons(msg, k, tail, d, main);
      assert Sends(msg, k) + rest == [Send(msg, k)] + tail;
    }
  }

  lemma SectionShaped(body: seq<Instr>, rest: seq<Instr>, d: nat, main: bool)
    requires var inner := body + ([RestoreIfSaved] + rest);
             Shaped(inner, d + 1, main) && !MidMessage(inner)
    ensures Shaped(Section(body) + rest, d, main) && !MidMessage(Section(body) + rest)
  {
    var code := Section(body) + rest;
    assert code[1..][1..] == body + ([RestoreIfSaved] + rest);
    assert code[1..][0] == ClearIfSaved;
  }

  lemma RestoreShaped(rest: seq<Instr>, d: nat, main: bool)
    requires Shaped(rest, d, main) && !MidMessage(rest)
    ensures Shaped([RestoreIfSaved] + rest, d + 1, main) && !MidMessage([RestoreIfSaved] + rest)
  {
    assert ([RestoreIfSaved] + rest)[1..] == rest;
  }

  lemma EnablesParts(body: seq<Stmt>, outside: bool)
    requires EnablesOutside(body, outside) && body != []
    ensures EnablesOutside([body[0]], outside) && EnablesOutside(body[1..], outside)
  {
    assert [body[0]][1..] == [];
  }

  lemma {:induction false} CompileOneShaped(s: Stmt, rest: seq<Instr>, d: nat, main: bool)
    requires Shaped(rest, d, main) && !MidMessage(rest) && EnablesOutside([s], main && d == 0)
    ensures Shaped(CompileOne(s) + rest, d, main) && !MidMessage(CompileOne(s) + rest)
    decreases s, 0
  {
    RestoreShaped(rest, d, main);
    var closed := [RestoreIfSaved] + rest;
    match s
    case Print(text) =>
      SendsShaped(Crlf(text), 0, closed, d + 1, main);
      SectionShaped(Sends(Crlf(text), 0), rest, d, main);
    case Critical(body) =>
      CompileShaped(body, closed, d + 1, main);
      SectionShaped(Compile(body), rest, d, main);
    case ReadCounter(c) =>
      assert ([Read(c)] + closed)[1..] == closed;
      SectionShaped([Read(c)], rest, d, main);
    case EnableInterrupts =>
      assert ([Enable] + rest)[1..] == rest;
    case Compute =>
      assert ([Other] + rest)[1..] == rest;
  }

  /** Every compiled body is shaped. */
  lemma {:induction false} CompileShaped(body: seq<Stmt>, rest: seq<Instr>, d: nat, main: bool)
    requires Shaped(rest, d, main) && !MidMessage(rest) && EnablesOutside(body, main && d == 0)
    ensures Shaped(Compile(body) + rest, d, main) && !MidMessage(Compile(body) + rest)
    decreases body, 1
  {
    if body == [] {
      assert Compile(body) + rest == rest;
    } else {
      EnablesParts(body, main && d == 0);
      CompileShaped(body[1..], rest, d, main);
      CompileOneShaped(body[0], Compile(body[1..]) + rest, d, main);
      assert Compile(body) + rest == CompileOne(body[0]) + (Compile(body[1..]) + rest);
    }
  }

  lemma StoresCons(i: Instr, code: seq<Instr>, c: Counter)
    ensures Stores([i] + code, c) == One(i == Store(c)) + Stores(code, c)
  {
    assert ([i] + code)[1..] == code;
  }

  lemma TimerStores()
    ensures Shaped(Handler(Timer), 0, false) && forall c :: Stores(Handler(Timer), c) == One(c == Ticks)
  {
    assert Handler(Timer)[1..][1..] == [Other] && [Other][1..] == [];
    forall c ensures Stores(Handler(Timer), c) == One(c == Ticks) {
      StoresCons(Load(Ticks), [Store(Ticks), Other], c);
      StoresCons(Store(Ticks), [Other], c);
      StoresCons(Other, [], c);
    }
  }

  lemma KeyboardShaped(text: seq<uint8>)
    ensures Shaped(Handler(Keyboard(Some(text))), 0, false)
  {
    var shown := CompileOne(Print(text)) + [Other];
    var code := Handler(Keyboard(Some(text)));
    assert [Other][1..] == [] && Shaped([Other], 0, false);
    CompileOneShaped(Print(text), [Other], 0, false);
    assert code[1..] == [Load(Keys)] + ([Store(Keys)] + shown);
    assert code[1..][1..] == [Store(Keys)] + shown && code[1..][1..][1..] == shown;
  }

  lemma {:induction false} SendsStores(msg: seq<uint8>, k: nat, rest: seq<Instr>, c: Counter)
    ensures Stores(Sends(msg, k) + rest, c) == Stores(rest, c)
    decreases |msg| - k
  {
    if k >= |msg| {
      assert Sends(msg, k) + rest == rest;
    } else {
      SendsStores(msg, k + 1, rest, c);
      StoresCons(Send(msg, k), Sends(msg, k + 1) + rest, c);
      ConcatAssoc([Send(msg, k)], Sends(msg, k + 1), rest);
    }
  }

  lemma PrintStores(msg: seq<uint8>, c: Counter)
    ensures Stores(Section(Sends(msg, 0)) + [Other], c) == 0
  {
    var tail: seq<Instr> := [RestoreIfSaved, Other];
    var code := Section(Sends(msg, 0)) + [Other];
    assert code[1..][1..] == Sends(msg, 0) + tail;
    SendsStores(msg, 0, tail, c);
    assert tail[1..] == [Other] && [Other][1..] == [];
  }

  lemma KeyboardStores(text: seq<uint8>, c: Counter)
    ensures Stores(Handler(Keyboard(Some(text))), c) == One(c == Keys)
  {
    var shown := CompileOne(Print(text)) + [Other];
    assert Handler(Keyboard(Some(text))) == [Other] + ([Load(Keys)] + ([Store(Keys)] + shown));
    StoresCons(Other, [Load(Keys)] + ([Store(Keys)] + shown), c);
    StoresCons(Load(Keys), [Store(Keys)] + shown, c);
    StoresCons(Store(Keys), shown, c);
    PrintStores(Crlf(text), c);
  }

  lemma HandlerShaped(irq: Irq)
    ensures Shaped(Handler(irq), 0, false) && !MidMessage(Handler(irq))
    ensures forall c :: Stores(Handler(irq), c) == Counts(0, 0).Plus(irq).Get(c)
  {
    match irq
    case Timer =>
      TimerStores();
    case Keyboard(None) =>
      assert [Other, Other][1..] == [Other] && [Other][1..] == [];
    case Keyboard(Some(text)) =>
      KeyboardShaped(text);
      forall c ensures Stores(Handler(irq), c) == Counts(0, 0).Plus(irq).Get(c) {
        KeyboardStores(text, c);
      }
  }

  // ------------------------------------------------------------------ invariance

  lemma FlattenSnoc(log: seq<Entry>, e: Entry)
    ensures Flatten(log + [e]) == Flatten(log) + e.msg
  {
    assert ButLast(log + [e]) == log;
  }

  lemma ShapedIsReady(c: Context, main: bool)
    requires Shaped(c.code, |c.saved|, main)
    ensures Ready(c, main) && !AtClear(c) && !AtStore(c)
  {
  }

  lemma ExecuteSave(s: Cpu)
    requires TopSound(s) && s.top.code != [] && s.top.code[0].SaveFlag?
    ensures TopSound(ExecuteTop(s))
  {
    assert s.top.code[1..][0] == ClearIfSaved;
  }

  lemma ExecuteClear(s: Cpu)
    requires TopSound(s) && s.top.code != [] && s.top.code[0].ClearIfSaved?
    ensures Enabled(s, Execute) && TopSound(ExecuteTop(s))
  {
    ShapedIsReady(s.top.(code := s.top.code[1..]), s.below == []);
  }

  lemma ExecuteRestore(s: Cpu)
    requires TopSound(s) && s.top.code != [] && s.top.code[0].RestoreIfSaved?
    ensures Enabled(s, Execute) && TopSound(ExecuteTop(s))
  {
    ShapedIsReady(s.top.(code := s.top.code[1..], saved := ButLast(s.top.saved)), s.below == []);
  }

  lemma ExecuteLoad(s: Cpu)
    requires TopSound(s) && s.top.code != [] && s.top.code[0].Load?
    ensures TopSound(ExecuteTop(s))
  {
    assert s.top.code[1..][0].Store?;
  }

  lemma ExecutePlain(s: Cpu)
    requires TopSound(s) && s.top.code != []
    requires var i := s.top.code[0]; i.Send? || i.Store? || i.Read? || i.Enable? || i.Other?
    ensures Enabled(s, Execute) && TopSound(ExecuteTop(s))
    ensures s.top.code[0].Enable? ==> s.below == []
  {
    ShapedIsReady(s.top.(code := s.top.code[1..]), s.below == []);
  }

  /** One instruction keeps its context in shape and the flag in step. */
  lemma ExecuteContext(s: Cpu)
    requires TopSound(s) && s.top.code != []
    ensures Enabled(s, Execute) && TopSound(ExecuteTop(s))
    ensures var c := ExecuteTop(s).top;
            c.flags == s.top.flags && (c.base == s.top.base || s.below == [])
  {
    match s.top.code[0]
    case SaveFlag => ExecuteSave(s);
    case ClearIfSaved => ExecuteClear(s);
    case RestoreIfSaved => ExecuteRestore(s);
    case Load(_) => ExecuteLoad(s);
    case _ => ExecutePlain(s);
  }

  lemma QuietStep(c: Context, main: bool)
    requires Ready(c, main) && c.code != [] && !c.code[0].Send?
    ensures !MidMessage(c.code) && !MidMessage(c.code[1..])
  {
  }

  lemma SendStep(c: Context, main: bool)
    requires Ready(c, main) && c.code != [] && c.code[0].Send?
    ensures var msg, k := c.code[0].msg, c.code[0].k;
            && k < |msg| && Partial(c.code) == msg[..k]
            && Partial(c.code[1..]) == if k + 1 < |msg| then msg[..k + 1] else []
  {
    assert Shaped(c.code, |c.saved|, main);
  }

  lemma SendOutput(s: Cpu)
    requires TopSound(s) && OutputSound(s) && s.top.code != [] && s.top.code[0].Send? && Enabled(s, Execute)
    ensures OutputSound(ExecuteTop(s))
  {
    SendStep(s.top, s.below == []);
    var msg, k := s.top.code[0].msg, s.top.code[0].k;
    ConcatAssoc(Flatten(s.log), msg[..k], [msg[k]]);
    assert msg[..k] + [msg[k]] == msg[..k + 1];
    if k + 1 == |msg| {
      FlattenSnoc(s.log, Entry(s.below == [], msg));
      assert msg[..k + 1] == msg && Flatten(s.log) + msg + [] == Flatten(s.log) + msg;
    }
  }

  /** The output stays whole messages followed by part of the one in progress. */
  lemma ExecuteOutput(s: Cpu)
    requires TopSound(s) && OutputSound(s) && s.top.code != [] && Enabled(s, Execute)
    ensures OutputSound(ExecuteTop(s))
  {
    if s.top.code[0].Send? {
      SendOutput(s);
    } else {
      QuietStep(s.top, s.below == []);
    }
  }

  /** No increment is lost: what has been taken is counted or still due. */
  lemma ExecuteCounts(s: Cpu)
    requires TopSound(s) && CountsSound(s) && s.top.code != [] && Enabled(s, Execute)
    ensures CountsSound(ExecuteTop(s))
  {
    var s' := ExecuteTop(s);
    forall c ensures s'.taken.Get(c) == s'.count.Get(c) + Due(s', c) {
      assert s.taken.Get(c) == s.count.Get(c) + Due(s, c);
    }
  }

  lemma ExecuteKeepsInv(s: Cpu)
    requires Inv(s) && s.top.code != []
    ensures Enabled(s, Execute) && Inv(ExecuteTop(s))
  {
    ExecuteContext(s);
    ExecuteOutput(s);
    ExecuteCounts(s);
  }

  lemma InterruptKeepsInv(s: Cpu, irq: Irq)
    requires Inv(s) && s.iflag
    ensures s.below == [] && Inv(Apply(s, Interrupt(irq)))
  {
    HandlerShaped(irq);
    var s' := Apply(s, Interrupt(irq));
    ShapedIsReady(s'.top, false);
    forall c ensures s'.taken.Get(c) == s'.count.Get(c) + Due(s', c) {
      assert s.taken.Get(c) == s.count.Get(c) + Due(s, c);
      assert Stores(Handler(irq), c) == Counts(0, 0).Plus(irq).Get(c);
    }
  }

  lemma ReturnKeepsInv(s: Cpu)
    requires Inv(s) && Enabled(s, Return)
    ensures Inv(Apply(s, Return))
  {
    var s' := Apply(s, Return);
    forall c ensures s'.taken.Get(c) == s'.count.Get(c) + Due(s', c) {
      assert s.taken.Get(c) == s.count.Get(c) + Due(s, c);
    }
  }

  // ------------------------------------------------------------------- whole runs

  function Boot(program: seq<Stmt>): Cpu {
    Cpu(Context(Compile(program), [], 0, false, false), [], false, Counts(0, 0), Counts(0, 0), [], [])
  }

  predicate Possible(s: Cpu, run: seq<Event>)
    decreases |run|
  {
    run == [] || (Enabled(s, run[0]) && Possible(Apply(s, run[0]), run[1..]))
  }

  function After(s: Cpu, run: seq<Event>): Cpu
    requires Possible(s, run)
    decreases |run|
  {
    if run == [] then s else After(Apply(s, run[0]), run[1..])
  }

  lemma StepKeepsInv(s: Cpu, e: Event)
    requires Inv(s) && Enabled(s, e)
    ensures Inv(Apply(s, e))
  {
    match e
    case Execute => ExecuteKeepsInv(s);
    case Interrupt(irq) => InterruptKeepsInv(s, irq);
    case Return => ReturnKeepsInv(s);
  }

  lemma {:induction false} RunKeepsInv(s: Cpu, run: seq<Event>)
    requires Inv(s) && Possible(s, run)
    ensures Inv(After(s, run))
    decreases |run|
  {
    if run != [] {
      StepKeepsInv(s, run[0]);
      RunKeepsInv(Apply(s, run[0]), run[1..]);
    }
  }

  lemma BootInv(program: seq<Stmt>)
    requires EnablesOutside(program, true)
    ensures Inv(Boot(program))
  {
    CompileShaped(program, [], 0, true);
    assert Compile(program) + [] == Compile(program);
  }

  /** A context is in the body of a critical section. */
  predicate InBody(c: Context) { c.saved != [] && !AtClear(c) }

  /** Inside a section's body the only thing that can happen is its next instruction. */
  lemma BodyIsAtomic(s: Cpu, e: Event)
    requires Inv(s) && InBody(s.top) && Enabled(s, e)
    ensures e == Execute && Apply(s, e).below == s.below
  {
  }

  /** `RestoreIfSaved` puts the flag back to the one most recently saved. */
  lemma RestoreMatchesEntry(s: Cpu)
    requires Inv(s) && s.top.code != [] && s.top.code[0] == RestoreIfSaved
    ensures Enabled(s, Execute)
    ensures ExecuteTop(s).iflag == Last(s.top.saved) && ExecuteTop(s).top.saved == ButLast(s.top.saved)
  {
    ExecuteContext(s);
  }

  /** The context at `level`: main is level 0, a handler level 1. */
  function ContextAt(s: Cpu, level: nat): Context
    requires level <= |s.below|
  {
    if level == |s.below| then s.top else s.below[level]
  }

  /** The context at `level` is in at least `depth` sections. */
  predicate Open(s: Cpu, level: nat, depth: nat) {
    level <= |s.below| && |ContextAt(s, level).saved| >= depth
  }

  predicate StaysOpen(s: Cpu, run: seq<Event>, level: nat, depth: nat)
    requires Possible(s, run)
    decreases |run|
  {
    Open(s, level, depth) && (run == [] || StaysOpen(Apply(s, run[0]), run[1..], level, depth))
  }

  lemma StepKeepsSaved(s: Cpu, e: Event, level: nat, depth: nat)
    requires Enabled(s, e) && Open(s, level, depth) && Open(Apply(s, e), level, depth)
    ensures ContextAt(Apply(s, e), level).saved[..depth] == ContextAt(s, level).saved[..depth]
    ensures Apply(s, e).below[..level] == s.below[..level]
  {
  }

  /** While a section stays open its saved flag, and whatever it interrupted, stay put. */
  lemma {:induction false} OpenKeepsSaved(s: Cpu, run: seq<Event>, level: nat, depth: nat)
    requires Possible(s, run) && StaysOpen(s, run, level, depth)
    ensures var t := After(s, run);
            && Open(t, level, depth)
            && ContextAt(t, level).saved[..depth] == ContextAt(s, level).saved[..depth]
            && t.below[..level] == s.below[..level]
    decreases |run|
  {
    if run != [] {
      StepKeepsSaved(s, run[0], level, depth);
      OpenKeepsSaved(Apply(s, run[0]), run[1..], level, depth);
    }
  }

  lemma OpenKeepsAll(s: Cpu, run: seq<Event>)
    requires Possible(s, run) && StaysOpen(s, run, |s.below|, |s.top.saved|)
    requires |After(s, run).below| == |s.below| && |After(s, run).top.saved| == |s.top.saved|
    ensures After(s, run).top.saved == s.top.saved && After(s, run).below == s.below
  {
    var t := After(s, run);
    OpenKeepsSaved(s, run, |s.below|, |s.top.saved|);
    assert t.top.saved[..|s.top.saved|] == t.top.saved && s.top.saved[..|s.top.saved|] == s.top.saved;
    assert t.below[..|s.below|] == t.below && s.below[..|s.below|] == s.below;
  }

  lemma RestoreUndoesSave(u: Cpu, saved: seq<bool>, flag: bool)
    requires Inv(u) && u.top.code != [] && u.top.code[0] == RestoreIfSaved && u.top.saved == saved + [flag]
    ensures Enabled(u, Execute)
    ensures ExecuteTop(u).iflag == flag && ExecuteTop(u).top.saved == saved && ExecuteTop(u).below == u.below
  {
    RestoreMatchesEntry(u);
    assert ButLast(saved + [flag]) == saved;
  }

  /** From the start of any section to the `RestoreIfSaved` that closes it, whatever
      ran inside and wherever interrupts fell: the flag, the saved flags and the
      contexts below are again those before the section. */
  lemma SectionKeepsFlag(s: Cpu, run: seq<Event>)
    requires Inv(s) && s.top.code != [] && s.top.code[0] == SaveFlag
    requires Possible(ExecuteTop(s), run)
    requires StaysOpen(ExecuteTop(s), run, |s.below|, |s.top.saved| + 1)
    requires var u := After(ExecuteTop(s), run);
             && u.top.code != [] && u.top.code[0] == RestoreIfSaved
             && |u.below| == |s.below| && |u.top.saved| == |s.top.saved| + 1
    ensures var u := After(ExecuteTop(s), run);
            && Enabled(u, Execute)
            && var v := ExecuteTop(u);
               v.iflag == s.iflag && v.top.saved == s.top.saved && v.below == s.below
  {
    var t := ExecuteTop(s);
    StepKeepsInv(s, Execute);
    RunKeepsInv(t, run);
    OpenKeepsAll(t, run);
    RestoreUndoesSave(After(t, run), s.top.saved, s.iflag);
  }

  predicate StaysInBody(s: Cpu, run: seq<Event>)
    requires Possible(s, run)
    decreases |run|
  {
    InBody(s.top) && (run == [] || StaysInBody(Apply(s, run[0]), run[1..]))
  }

  /** For as long as a run stays inside a body, nothing else runs. */
  lemma {:induction false} BodyRunsAlone(s: Cpu, run: seq<Event>)
    requires Inv(s) && Possible(s, run) && StaysInBody(s, run)
    ensures (forall e :: e in run ==> e == Execute) && After(s, run).below == s.below
    decreases |run|
  {
    if run != [] {
      BodyIsAtomic(s, run[0]);
      StepKeepsInv(s, run[0]);
      BodyRunsAlone(Apply(s, run[0]), run[1..]);
      assert run == [run[0]] + run[1..];
    }
  }

  /** Over every run of every program, with interrupts arriving wherever they can:
      no interrupt is possible inside a critical section's body, handlers never
      nest, each section leaves the flag as its context had it outside, and the
      serial line carries whole messages with at most one in progress. */
  lemma CriticalSections(program: seq<Stmt>, run: seq<Event>)
    requires EnablesOutside(program, true) && Possible(Boot(program), run)
    ensures var s := After(Boot(program), run);
            && |s.below| <= 1
            && (InBody(s.top) ==> !s.iflag)
            && (s.top.saved == [] ==> s.iflag == s.top.base)
            && (s.below != [] ==> !s.iflag && !InBody(s.below[0]))
            && s.sent == Flatten(s.log) + Partial(s.top.code)
            && (!InBody(s.top) ==> s.sent == Flatten(s.log))
  {
    BootInv(program);
    RunKeepsInv(Boot(program), run);
  }

  /** The timer interrupts of a run. */
  function Timers(run: seq<Event>): nat {
    if run == [] then 0 else One(run[0] == Interrupt(Timer)) + Timers(run[1..])
  }

  /** The keyboard interrupts of a run whose key was translated. */
  function KeysSeen(run: seq<Event>): nat {
    if run == [] then 0 else
    One(run[0].Interrupt? && run[0].irq.Keyboard? && run[0].irq.key.Some?) + KeysSeen(run[1..])
  }

  lemma {:induction false} TakenIsCounted(s: Cpu, run: seq<Event>)
    requires Possible(s, run)
    ensures After(s, run).taken == Counts(s.taken.ticks + Timers(run), s.taken.keys + KeysSeen(run))
    decreases |run|
  {
    if run != [] {
      TakenIsCounted(Apply(s, run[0]), run[1..]);
    }
  }

  /** Between interrupts nothing is owed: `TICKS` is the number of timer interrupts of
      the run, and `KEY_EVENTS_SEEN` the number of translated keys. */
  lemma CountersAreExact(program: seq<Stmt>, run: seq<Event>)
    requires EnablesOutside(program, true) && Possible(Boot(program), run)
    ensures var s := After(Boot(program), run);
            && (s.below == [] ==> s.count == Counts(Timers(run), KeysSeen(run)))
            && s.count.ticks <= Timers(run) && s.count.keys <= KeysSeen(run)
  {
    BootInv(program);
    RunKeepsInv(Boot(program), run);
    TakenIsCounted(Boot(program), run);
    var s := After(Boot(program), run);
    assert s.taken.Get(Ticks) == s.count.Get(Ticks) + Due(s, Ticks);
    assert s.taken.Get(Keys) == s.count.Get(Keys) + Due(s, Keys);
  }

  /** What `ticks` and `key_events_seen` answer: whenever main is about to read a
      counter, it is inside a section and gets the number of interrupts so far. */
  lemma ReadsAreExact(program: seq<Stmt>, run: seq<Event>, c: Counter)
    requires EnablesOutside(program, true) && Possible(Boot(program), run)
    requires var s := After(Boot(program), run); s.below == [] && s.top.code != [] && s.top.code[0] == Read(c)
    ensures var s := After(Boot(program), run);
            && InBody(s.top) && !s.iflag && Enabled(s, Execute)
            && ExecuteTop(s).top.reg == if c == Ticks then Timers(run) else KeysSeen(run)
  {
    BootInv(program);
    RunKeepsInv(Boot(program), run);
    CountersAreExact(program, run);
  }

  /** The counters code reads, in order. */
  function Reads(code: seq<Instr>): seq<Counter> {
    if code == [] then [] else (if code[0].Read? then [code[0].counter] else []) + Reads(code[1..])
  }

  /** The counters a program asks for, in order. */
  function Asked(body: seq<Stmt>): seq<Counter>
    decreases body
  {
    if body == [] then [] else
    (match body[0]
     case ReadCounter(c) => [c]
     case Critical(inner) => Asked(inner)
     case _ => [])
    + Asked(body[1..])
  }

  lemma {:induction false} ReadsConcat(a: seq<Instr>, b: seq<Instr>)
    ensures Reads(a + b) == Reads(a) + Reads(b)
  {
    if a == [] {
      assert a + b == b;
    } else {
      ConsConcat(a, b);
      ReadsConcat(a[1..], b);
      ConcatAssoc((if a[0].Read? then [a[0].counter] else []), Reads(a[1..]), Reads(b));
    }
  }

  lemma {:induction false} SendsRead(msg: seq<uint8>, k: nat)
    ensures Reads(Sends(msg, k)) == []
    decreases |msg| - k
  {
    if k < |msg| {
      SendsRead(msg, k + 1);
      assert Sends(msg, k)[1..] == Sends(msg, k + 1);
    }
  }

  lemma SectionReads(body: seq<Instr>)
    ensures Reads(Section(body)) == Reads(body)
  {
    ReadsConcat([SaveFlag, ClearIfSaved] + body, [RestoreIfSaved]);
    ReadsConcat([SaveFlag, ClearIfSaved], body);
    assert [SaveFlag, ClearIfSaved][1..] == [ClearIfSaved] && [ClearIfSaved][1..] == [] && [RestoreIfSaved][1..] == [];
  }

  /** A program reads exactly the counters it asks for, once each and in order; one
      question on its own is one read in a section. */
  lemma {:induction false} CompileReads(body: seq<Stmt>)
    ensures Reads(Compile(body)) == Asked(body)
    ensures forall c :: body == [ReadCounter(c)] ==>
              Compile(body) == [SaveFlag, ClearIfSaved, Read(c), RestoreIfSaved]
    decreases body
  {
    if body != [] {
      CompileReads(body[1..]);
      ReadsConcat(CompileOne(body[0]), Compile(body[1..]));
      match body[0]
      case Print(text) =>
        SectionReads(Sends(Crlf(text), 0));
        SendsRead(Crlf(text), 0);
      case Critical(inner) =>
        SectionReads(Compile(inner));
        CompileReads(inner);
      case ReadCounter(c) =>
        SectionReads([Read(c)]);
        assert [Read(c)][1..] == [];
      case EnableInterrupts => assert [Enable][1..] == [];
      case Compute => assert [Other][1..] == [];
    }
  }

  // ------------------------------------------------------------ enabling interrupts

  function Enables(code: seq<Instr>): nat {
    if code == [] then 0 else One(code[0] == Enable) + Enables(code[1..])
  }

  /** The flag main runs with outside sections is set once it has enabled interrupts. */
  ghost predicate EnabledSo(s: Cpu, total: nat) {
    Enables(Main(s).code) <= total && (Main(s).base <==> Enables(Main(s).code) < total)
  }

  lemma StepEnables(s: Cpu, e: Event, total: nat)
    requires Enabled(s, e) && EnabledSo(s, total)
    ensures EnabledSo(Apply(s, e), total)
  {
  }

  lemma {:induction false} RunEnables(s: Cpu, run: seq<Event>, total: nat)
    requires Possible(s, run) && EnabledSo(s, total)
    ensures EnabledSo(After(s, run), total)
    decreases |run|
  {
    if run != [] {
      StepEnables(s, run[0], total);
      RunEnables(Apply(s, run[0]), run[1..], total);
    }
  }

  /** Before main enables interrupts none is ever possible; from then on every one is,
      whenever main runs outside its sections. */
  lemma InterruptsComeOn(program: seq<Stmt>, run: seq<Event>, irq: Irq)
    requires EnablesOutside(program, true) && Possible(Boot(program), run)
    ensures var s := After(Boot(program), run);
            var on := Enables(Main(s).code) < Enables(Compile(program));
            && (!on ==> !Enabled(s, Interrupt(irq)))
            && (on && s.below == [] && s.top.saved == [] ==> Enabled(s, Interrupt(irq)))
  {
    BootInv(program);
    RunKeepsInv(Boot(program), run);
    RunEnables(Boot(program), run, Enables(Compile(program)));
  }

  /** The `EnableInterrupts` statements outside every section. */
  function EnableCount(body: seq<Stmt>): nat {
    if body == [] then 0 else One(body[0].EnableInterrupts?) + EnableCount(body[1..])
  }

  lemma {:induction false} EnablesConcat(a: seq<Instr>, b: seq<Instr>)
    ensures Enables(a + b) == Enables(a) + Enables(b)
  {
    if a == [] {
      assert a + b == b;
    } else {
      ConsConcat(a, b);
      EnablesConcat(a[1..], b);
    }
  }

  lemma {:induction false} SendsEnable(msg: seq<uint8>, k: nat)
    ensures Enables(Sends(msg, k)) == 0
    decreases |msg| - k
  {
    if k < |msg| {
      SendsEnable(msg, k + 1);
      assert Sends(msg, k)[1..] == Sends(msg, k + 1);
    }
  }

  lemma SectionEnables(body: seq<Instr>)
    ensures Enables(Section(body)) == Enables(body)
  {
    EnablesConcat([SaveFlag, ClearIfSaved] + body, [RestoreIfSaved]);
    EnablesConcat([SaveFlag, ClearIfSaved], body);
    assert [SaveFlag, ClearIfSaved][1..] == [ClearIfSaved] && [ClearIfSaved][1..] == [] && [RestoreIfSaved][1..] == [];
  }

  /** A program enables interrupts exactly where it says so. */
  lemma {:induction false} CompileEnables(body: seq<Stmt>, outside: bool)
    requires EnablesOutside(body, outside)
    ensures Enables(Compile(body)) == EnableCount(body)
    ensures !outside ==> EnableCount(body) == 0
    decreases body
  {
    if body != [] {
      CompileEnables(body[1..], outside);
      EnablesConcat(CompileOne(body[0]), Compile(body[1..]));
      match body[0]
      case Print(text) =>
        SectionEnables(Sends(Crlf(text), 0));
        SendsEnable(Crlf(text), 0);
      case Critical(inner) =>
        SectionEnables(Compile(inner));
        CompileEnables(inner, false);
      case ReadCounter(c) =>
        SectionEnables([Read(c)]);
        assert [Read(c)][1..] == [];
      case EnableInterrupts => assert [Enable][1..] == [];
      case Compute => assert [Other][1..] == [];
    }
  }

  /** The machine never jams: it can execute, return from a handler, or main is done. */
  lemma NeverStuck(s: Cpu)
    requires Inv(s)
    ensures Enabled(s, Execute) || Enabled(s, Return) || (s.below == [] && s.top.code == [])
  {
    if s.top.code != [] {
      ExecuteKeepsInv(s);
    }
  }

  // ------------------------------------------------------------ what main printed

  /** The next instruction sends the last byte of a message. */
  predicate Completes(code: seq<Instr>) {
    code != [] && code[0].Send? && code[0].k + 1 == |code[0].msg|
  }

  /** The messages code has still to complete. */
  function Owed(code: seq<Instr>): seq<seq<uint8>> {
    if code == [] then [] else
    (if Completes(code) then [code[0].msg] else []) + Owed(code[1..])
  }

  /** Main's messages in the log. */
  function FromMain(log: seq<Entry>): seq<seq<uint8>> {
    if log == [] then [] else
    FromMain(ButLast(log)) + (if Last(log).fromMain then [Last(log).msg] else [])
  }

  /** The messages a program asks to print, in order. */
  function Printed(body: seq<Stmt>): seq<seq<uint8>>
    decreases body
  {
    if body == [] then [] else
    (match body[0]
     case Print(text) => (if text == [] then [] else [Crlf(text)])
     case Critical(inner) => Printed(inner)
     case _ => [])
    + Printed(body[1..])
  }

  lemma FromMainSnoc(log: seq<Entry>, e: Entry)
    ensures FromMain(log + [e]) == FromMain(log) + (if e.fromMain then [e.msg] else [])
  {
    assert ButLast(log + [e]) == log;
  }

  lemma OwedHead(code: seq<Instr>)
    requires code != []
    ensures Owed(code) == (if Completes(code) then [code[0].msg] else []) + Owed(code[1..])
  {
  }

  lemma ExecuteMoves(s: Cpu)
    requires Enabled(s, Execute)
    ensures var s' := ExecuteTop(s);
            s'.top.code == s.top.code[1..] && s'.below == s.below
            && s'.log == if Completes(s.top.code) then s.log + [Entry(s.below == [], s.top.code[0].msg)] else s.log
  {
  }

  lemma CompleteOwes(s: Cpu)
    requires Enabled(s, Execute) && Completes(s.top.code)
    ensures var s' := ExecuteTop(s);
            FromMain(s'.log) + Owed(Main(s').code) == FromMain(s.log) + Owed(Main(s).code)
  {
    var msg, log, rest := s.top.code[0].msg, FromMain(s.log), Owed(s.top.code[1..]);
    ExecuteMoves(s);
    FromMainSnoc(s.log, Entry(s.below == [], msg));
    OwedHead(s.top.code);
    ConcatAssoc(log, [msg], rest);
    assert log + [] == log;
  }

  lemma ExecuteOwes(s: Cpu)
    requires Enabled(s, Execute)
    ensures var s' := ExecuteTop(s);
            FromMain(s'.log) + Owed(Main(s').code) == FromMain(s.log) + Owed(Main(s).code)
  {
    OwedHead(s.top.code);
    ExecuteMoves(s);
    if Completes(s.top.code) {
      CompleteOwes(s);
    } else {
      assert [] + Owed(s.top.code[1..]) == Owed(s.top.code[1..]);
    }
  }

  lemma StepOwes(s: Cpu, e: Event)
    requires Inv(s) && Enabled(s, e)
    ensures var s' := Apply(s, e);
            FromMain(s'.log) + Owed(Main(s').code) == FromMain(s.log) + Owed(Main(s).code)
  {
    if e.Execute? {
      ExecuteOwes(s);
    }
  }

  lemma {:induction false} RunOwes(s: Cpu, run: seq<Event>)
    requires Inv(s) && Possible(s, run)
    ensures var s' := After(s, run);
            FromMain(s'.log) + Owed(Main(s').code) == FromMain(s.log) + Owed(Main(s).code)
    decreases |run|
  {
    if run != [] {
      StepKeepsInv(s, run[0]);
      StepOwes(s, run[0]);
      RunOwes(Apply(s, run[0]), run[1..]);
    }
  }

  lemma {:induction false} OwedConcat(a: seq<Instr>, b: seq<Instr>)
    ensures Owed(a + b) == Owed(a) + Owed(b)
  {
    if a == [] {
      assert a + b == b;
    } else {
      ConsConcat(a, b);
      OwedConcat(a[1..], b);
      ConcatAssoc((if Completes(a) then [a[0].msg] else []), Owed(a[1..]), Owed(b));
    }
  }

  lemma {:induction false} SendsOwed(msg: seq<uint8>, k: nat)
    ensures Owed(Sends(msg, k)) == if k < |msg| then [msg] else []
    decreases |msg| - k
  {
    if k < |msg| {
      SendsOwed(msg, k + 1);
      assert Sends(msg, k)[1..] == Sends(msg, k + 1);
    }
  }

  lemma SectionOwed(body: seq<Instr>)
    ensures Owed(Section(body)) == Owed(body)
  {
    OwedConcat([SaveFlag, ClearIfSaved] + body, [RestoreIfSaved]);
    OwedConcat([SaveFlag, ClearIfSaved], body);
    assert [SaveFlag, ClearIfSaved][1..] == [ClearIfSaved] && [ClearIfSaved][1..] == [] && [RestoreIfSaved][1..] == [];
  }

  lemma {:induction false} CompileOwed(body: seq<Stmt>)
    ensures Owed(Compile(body)) == Printed(body)
    decreases body
  {
    if body != [] {
      CompileOwed(body[1..]);
      OwedConcat(CompileOne(body[0]), Compile(body[1..]));
      match body[0]
      case Print(text) =>
        SectionOwed(Sends(Crlf(text), 0));
        SendsOwed(Crlf(text), 0);
      case Critical(inner) =>
        SectionOwed(Compile(inner));
        CompileOwed(inner);
      case ReadCounter(c) =>
        SectionOwed([Read(c)]);
        assert [Read(c)][1..] == [];
      case EnableInterrupts => assert [Enable][1..] == [];
      case Compute => assert [Other][1..] == [];
    }
  }

  /** However interrupts fall, main's messages come out whole, once each and in
      program order, among the handlers' whole messages. */
  lemma MainPrintsItsMessages(program: seq<Stmt>, run: seq<Event>)
    requires EnablesOutside(program, true) && Possible(Boot(program), run)
    ensures var s := After(Boot(program), run);
            && FromMain(s.log) + Owed(Main(s).code) == Printed(program)
            && (Main(s).code == [] ==> FromMain(s.log) == Printed(program))
  {
    BootInv(program);
    RunOwes(Boot(program), run);
    CompileOwed(program);
  }

  // --------------------------------------------------------- what handlers printed

  /** The handlers' messages in the log. */
  function FromHandlers(log: seq<Entry>): seq<seq<uint8>> {
    if log == [] then [] else
    FromHandlers(ButLast(log)) + (if Last(log).fromMain then [] else [Last(log).msg])
  }

  /** The messages an interrupt's handler is to print. */
  function KeyText(irq: Irq): seq<seq<uint8>> {
    match irq
    case Keyboard(Some(text)) => if text == [] then [] else [Crlf(text)]
    case _ => []
  }

  /** Those of every interrupt of a run, in order. */
  function KeyTexts(run: seq<Event>): seq<seq<uint8>> {
    if run == [] then [] else (if run[0].Interrupt? then KeyText(run[0].irq) else []) + KeyTexts(run[1..])
  }

  function HandlerOwes(s: Cpu): seq<seq<uint8>> {
    if s.below == [] then [] else Owed(s.top.code)
  }

  lemma {:induction false} OwedQuiet(code: seq<Instr>)
    requires forall i :: 0 <= i < |code| ==> !code[i].Send?
    ensures Owed(code) == []
  {
    if code != [] {
      OwedQuiet(code[1..]);
    }
  }

  lemma HandlerOwed(irq: Irq)
    ensures Owed(Handler(irq)) == KeyText(irq)
  {
    match irq
    case Timer => OwedQuiet([Load(Ticks), Store(Ticks), Other]);
    case Keyboard(None) => OwedQuiet([Other, Other]);
    case Keyboard(Some(text)) =>
      var start, shown := [Other, Load(Keys), Store(Keys)], CompileOne(Print(text));
      OwedConcat(start + shown, [Other]);
      OwedConcat(start, shown);
      OwedQuiet(start);
      OwedQuiet([Other]);
      SectionOwed(Sends(Crlf(text), 0));
      SendsOwed(Crlf(text), 0);
      assert text != [] ==> Crlf(text) != [];
  }

  lemma FromHandlersSnoc(log: seq<Entry>, e: Entry)
    ensures FromHandlers(log + [e]) == FromHandlers(log) + (if e.fromMain then [] else [e.msg])
  {
    assert ButLast(log + [e]) == log;
  }

  lemma ExecuteHandlerOwes(s: Cpu)
    requires Enabled(s, Execute)
    ensures FromHandlers(ExecuteTop(s).log) + HandlerOwes(ExecuteTop(s)) == FromHandlers(s.log) + HandlerOwes(s)
  {
    OwedHead(s.top.code);
    ExecuteMoves(s);
    if Completes(s.top.code) {
      var msg := s.top.code[0].msg;
      FromHandlersSnoc(s.log, Entry(s.below == [], msg));
      ConcatAssoc(FromHandlers(s.log), [msg], Owed(s.top.code[1..]));
      assert FromHandlers(s.log) + [] == FromHandlers(s.log);
    } else {
      assert [] + Owed(s.top.code[1..]) == Owed(s.top.code[1..]);
    }
  }

  lemma StepHandlerOwes(s: Cpu, e: Event)
    requires Inv(s) && Enabled(s, e)
    ensures FromHandlers(Apply(s, e).log) + HandlerOwes(Apply(s, e))
            == FromHandlers(s.log) + HandlerOwes(s) + KeyTexts([e])
  {
    var before := FromHandlers(s.log) + HandlerOwes(s);
    assert [e][1..] == [] && KeyTexts([e]) == (if e.Interrupt? then KeyText(e.irq) else []) + [];
    match e
    case Execute => ExecuteHandlerOwes(s);
    case Interrupt(irq) =>
      HandlerOwed(irq);
      assert s.below == [] && before == FromHandlers(s.log);
    case Return =>
      assert HandlerOwes(s) == [] && Apply(s, e).below == [];
  }

  lemma KeyTextsCons(run: seq<Event>)
    requires run != []
    ensures KeyTexts([run[0]]) + KeyTexts(run[1..]) == KeyTexts(run)
  {
    assert [run[0]][1..] == [];
    var here := if run[0].Interrupt? then KeyText(run[0].irq) else [];
    assert KeyTexts([run[0]]) == here + [] && here + [] == here;
  }

  lemma {:induction false} RunHandlerOwes(s: Cpu, run: seq<Event>)
    requires Inv(s) && Possible(s, run)
    ensures var t := After(s, run);
            FromHandlers(t.log) + HandlerOwes(t) == FromHandlers(s.log) + HandlerOwes(s) + KeyTexts(run)
    decreases |run|
  {
    var before := FromHandlers(s.log) + HandlerOwes(s);
    if run == [] {
      assert before + [] == before;
    } else {
      StepKeepsInv(s, run[0]);
      StepHandlerOwes(s, run[0]);
      RunHandlerOwes(Apply(s, run[0]), run[1..]);
      ConcatAssoc(before, KeyTexts([run[0]]), KeyTexts(run[1..]));
      KeyTextsCons(run);
    }
  }

  /** Every translated key is reported: the handlers' messages come out whole, once
      each and in the order of the interrupts, with at most the running one owed. */
  lemma HandlersPrintTheirKeys(program: seq<Stmt>, run: seq<Event>)
    requires EnablesOutside(program, true) && Possible(Boot(program), run)
    ensures var s := After(Boot(program), run);
            && FromHandlers(s.log) + HandlerOwes(s) == KeyTexts(run)
            && (s.below == [] ==> FromHandlers(s.log) == KeyTexts(run))
  {
    BootInv(program);
    RunHandlerOwes(Boot(program), run);
    assert [] + [] + KeyTexts(run) == KeyTexts(run);
    var s := After(Boot(program), run);
    assert FromHandlers(s.log) + [] == FromHandlers(s.log);
  }
}
