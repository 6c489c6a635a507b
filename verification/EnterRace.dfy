/**
 A host request to enter the bootloader handled while a validation runs
 (`service/acpi/ec_fw_update_bootloader.c:471-476`,
 `driver/storage_bootloader.c:206-267`): the two threads share the boot info.
 */
module EnterRace {
  import opened BootSafety
  import opened Device
  import opened Image
  import opened Storage
  import opened Wrappers

  // The validating thread's next access: the digest, the read of the mode, the
  // copy, the stores of mode and of count and flag, the save, the jump.
  datatype Pc = Measure | ReadMode | Copy | StoreMode | StoreRest | Save | Jump | Over

  // The ACPI thread in the request's handler; `at` is where the validation was
  // when the mode was stored.
  datatype Host = Waiting | Stored(at: Pc) | Returned(at: Pc)

  datatype State = State(b: Boot, pc: Pc, host: Host)

  datatype Step = Validation | HostStores | HostSaves

  function Ends(s: State, b: Boot): State {
    s.(b := b, pc := Over)
  }

  function Advance(s: State, f: Faults, h: Header): State {
    match s.pc
    case Measure =>
      if !HeaderLegal(h) then Ends(s, MarkFail(s.b))
      else if !Accepts(s.b, f, h) then Ends(s, MarkFail(AfterDigest(s.b, f, h)))
      else s.(b := AfterDigest(s.b, f, h), pc := ReadMode)
    case ReadMode => if s.b.info.mode == MODE_STAY then Ends(s, s.b) else s.(pc := Copy)
    case Copy =>
      if !HeaderLegal(h) then s
      else if !Loads(s.b, f, h) then Ends(s, MarkFail(AfterLoad(s.b, f, h.fwSize)))
      else if h.fwSize > COPY_LIMIT then Ends(s, AfterLoad(s.b, f, h.fwSize).(overrun := true))
      else s.(b := AfterLoad(s.b, f, h.fwSize), pc := StoreMode)
    case StoreMode => s.(b := s.b.(info := s.b.info.(mode := MODE_NORMAL)), pc := StoreRest)
    case StoreRest =>
      s.(b := s.b.(info := s.b.info.(failCount := 0, corruption := SetMainIntact(s.b.info.corruption))), pc := Save)
    case Save => s.(b := Saved(s.b), pc := Jump)
    case Jump => Ends(s, s.b.(entered := Some(h.loadAddress)))
    case Over => s
  }

  // Nothing runs after the jump or on overwritten memory.
  predicate Alive(s: State) {
    s.b.entered == None && !s.b.overrun
  }

  function Next(s: State, f: Faults, h: Header, step: Step): State {
    if !Alive(s) then s
    else
      match step
      case Validation => Advance(s, f, h)
      case HostStores =>
        if s.host.Waiting? then s.(b := s.b.(info := s.b.info.(mode := MODE_STAY)), host := Stored(s.pc)) else s
      case HostSaves => if s.host.Stored? then s.(b := Saved(s.b), host := Returned(s.host.at)) else s
  }

  function Run(s: State, f: Faults, h: Header, steps: seq<Step>): State
    decreases |steps|
  {
    if steps == [] then s else Run(Next(s, f, h, steps[0]), f, h, steps[1..])
  }

  predicate Starting(s: State) {
    Alive(s) && s.pc == Measure && s.host == Waiting
  }

  // ------------------------------------------------------------- undisturbed

  function Alone(n: nat): seq<Step> {
    seq(n, i => Validation)
  }

  function Steps(s: State, f: Faults, h: Header, n: nat): State
    decreases n
  {
    if n == 0 then s else Steps(Next(s, f, h, Validation), f, h, n - 1)
  }

  lemma {:induction false} RunAlone(s: State, f: Faults, h: Header, n: nat)
    ensures Run(s, f, h, Alone(n)) == Steps(s, f, h, n)
    decreases n
  {
    hide Next;
    if n > 0 {
      assert Alone(n)[1..] == Alone(n - 1);
      RunAlone(Next(s, f, h, Validation), f, h, n - 1);
    }
  }

  lemma OverStays(s: State, f: Faults, h: Header, n: nat)
    requires s.pc == Over || !Alive(s)
    ensures Steps(s, f, h, n) == s
    decreases n
  {
    if n > 0 {
      OverStays(s, f, h, n - 1);
    }
  }

  lemma StepsOn(s: State, f: Faults, h: Header, n: nat)
    requires n > 0
    ensures Steps(s, f, h, n) == Steps(Next(s, f, h, Validation), f, h, n - 1)
  {
    hide Next;
  }

  // The last four accesses are the launch.
  lemma Launches(s: State, f: Faults, h: Header)
    requires Alive(s) && s.pc == StoreMode
    ensures Steps(s, f, h, 4) == Ends(s, Launched(s.b, h.loadAddress))
  {
    hide SetMainIntact;
    var a := Next(s, f, h, Validation);
    var b := Next(a, f, h, Validation);
    var c := Next(b, f, h, Validation);
    StepsOn(s, f, h, 4);
    StepsOn(a, f, h, 3);
    StepsOn(b, f, h, 2);
    StepsOn(c, f, h, 1);
  }

  // Undisturbed, the accesses amount to the validation.
  lemma AloneValidates(s: State, f: Faults, h: Header)
    requires Starting(s)
    ensures Run(s, f, h, Alone(7)).b == Validate(s.b, f, h)
  {
    RunAlone(s, f, h, 7);
    hide StoreRam;
    hide ScanOf;
    hide Measured;
    hide DigestPasses;
    hide MarkFail;
    hide Launched;
    var a := Next(s, f, h, Validation);
    StepsOn(s, f, h, 7);
    if a.pc == ReadMode {
      var b := Next(a, f, h, Validation);
      StepsOn(a, f, h, 6);
      if b.pc == Copy {
        var c := Next(b, f, h, Validation);
        StepsOn(b, f, h, 5);
        if c.pc == StoreMode {
          Launches(c, f, h);
        } else {
          OverStays(c, f, h, 4);
        }
      } else {
        OverStays(b, f, h, 5);
      }
    } else {
      OverStays(a, f, h, 6);
    }
  }

  // ------------------------------------------------------------- the lost request

  // The validation has read the mode and not yet stored its own.
  predicate TooLate(at: Pc) {
    at == Copy || at == StoreMode
  }

  predicate HostAt(s: State) {
    s.host != Waiting
  }

  function At(s: State): Pc
    requires HostAt(s)
  {
    s.host.at
  }

  predicate BeforeCheck(pc: Pc) {
    pc == Measure || pc == ReadMode
  }

  predicate Past(pc: Pc) {
    pc == StoreRest || pc == Save || pc == Jump
  }

  // What a request stored at each point has come to.
  predicate Tracked(s: State) {
    HostAt(s) ==>
      && (BeforeCheck(At(s)) ==> s.b.entered == None && s.b.info.mode == MODE_STAY
                                 && (BeforeCheck(s.pc) || s.pc == Over))
      && (TooLate(At(s)) && (Past(s.pc) || s.b.entered.Some?) ==> s.b.info.mode == MODE_NORMAL)
      && (TooLate(At(s)) && s.pc == Jump && s.host.Returned? ==> Kept(s, MODE_NORMAL))
      && (TooLate(At(s)) && s.b.entered.Some? && s.host.Returned? ==> Kept(s, MODE_NORMAL))
      && (Past(At(s)) ==> s.b.info.mode == MODE_STAY && (Past(s.pc) || s.pc == Over))
      && (Past(At(s)) && s.host.Returned? ==> Kept(s, MODE_STAY))
      && (At(s) == Over ==> s.pc == Over && s.b.entered == None)
      && (TooLate(At(s)) ==> s.pc == Copy || s.pc == StoreMode || Past(s.pc) || s.pc == Over)
  }

  predicate Kept(s: State, mode: nat) {
    s.b.retained.Some? && s.b.retained.value.mode == mode
  }

  lemma NextTracked(s: State, f: Faults, h: Header, step: Step)
    requires Tracked(s) && (s.b.entered.Some? ==> s.pc == Over)
    ensures Tracked(Next(s, f, h, step)) && (Next(s, f, h, step).b.entered.Some? ==> Next(s, f, h, step).pc == Over)
  {
    hide StoreRam;
    hide ScanOf;
    hide Measured;
    hide DigestPasses;
    hide SetMainIntact;
    hide ClearMainIntact;
  }

  lemma {:induction false} RunTracked(s: State, f: Faults, h: Header, steps: seq<Step>)
    requires Tracked(s) && (s.b.entered.Some? ==> s.pc == Over)
    ensures Tracked(Run(s, f, h, steps))
    decreases |steps|
  {
    hide Tracked;
    hide Next;
    if steps != [] {
      NextTracked(s, f, h, steps[0]);
      RunTracked(Next(s, f, h, steps[0]), f, h, steps[1..]);
    }
  }

  // In every interleaving that enters the app although the request returned
  // success: the app is entered only if the request came after the mode was
  // read, and the request leaves no trace, retention saying NORMAL, exactly if
  // it also came before the validation stored the mode.
  lemma RequestLostExactly(s: State, f: Faults, h: Header, steps: seq<Step>)
    requires Starting(s)
    requires var e := Run(s, f, h, steps); e.b.entered.Some? && e.host.Returned?
    ensures var e := Run(s, f, h, steps);
      && !BeforeCheck(e.host.at)
      && (Kept(e, MODE_NORMAL) <==> TooLate(e.host.at))
      && (Kept(e, MODE_STAY) <==> !TooLate(e.host.at))
  {
    hide Run;
    RunTracked(s, f, h, steps);
  }

  // And such a run there is, for every validation that would enter the app: the
  // request handled during the copy.
  lemma RequestLost(s: State, f: Faults, h: Header)
    requires Starting(s) && Validate(s.b, f, h).entered.Some?
    ensures var e := Run(s, f, h, [Validation, Validation, HostStores, HostSaves] + Alone(5));
      e.b.entered.Some? && e.host == Returned(Copy) && Kept(e, MODE_NORMAL)
  {
    hide StoreRam;
    hide ScanOf;
    hide Measured;
    hide DigestPasses;
    hide SetMainIntact;
    Outcomes(s.b, f, h);
    var a := Next(s, f, h, Validation);
    var b := Next(a, f, h, Validation);
    var c := Next(b, f, h, HostStores);
    var d := Next(c, f, h, HostSaves);
    assert d.pc == Copy && d.host == Returned(Copy) && d.b.dev == AfterDigest(s.b, f, h).dev;
    var g := Next(d, f, h, Validation);
    assert g.pc == StoreMode && Alive(g) && g.host == d.host;
    Launches(g, f, h);
    assert [Validation, Validation, HostStores, HostSaves] + Alone(5)
        == [Validation] + ([Validation] + ([HostStores] + ([HostSaves] + Alone(5))));
    hide Next;
    StepsOn(d, f, h, 5);
    RunAlone(d, f, h, 5);
    RunCons(s, f, h, Validation, [Validation] + ([HostStores] + ([HostSaves] + Alone(5))));
    RunCons(a, f, h, Validation, [HostStores] + ([HostSaves] + Alone(5)));
    RunCons(b, f, h, HostStores, [HostSaves] + Alone(5));
    RunCons(c, f, h, HostSaves, Alone(5));
  }

  lemma RunCons(s: State, f: Faults, h: Header, step: Step, rest: seq<Step>)
    ensures Run(s, f, h, [step] + rest) == Run(Next(s, f, h, step), f, h, rest)
  {
    hide Next;
    assert ([step] + rest)[1..] == rest;
  }
}
