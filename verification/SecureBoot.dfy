/**
 The secure boot state read from verified events (attest/secureboot.go): two state
 machines, over the events of PCR 7 and of PCR 2, run in one loop.
 */
module SecureBoot {
  import opened Bytes
  import opened Hashing
  import opened Replay
  import opened UefiEvents

  datatype Env = Env(hash: HashFunction, dec: Decoders)

  predicate HasType(es: seq<Event>, typ: uint32) {
    exists e | e in es :: e.typ == typ
  }

  predicate HasSeparator(es: seq<Event>) {
    HasType(es, SEPARATOR)
  }

  predicate SeparatorOk(env: Env, before: seq<Event>, e: Event) {
    !HasSeparator(before) && e.data == [0, 0, 0, 0] && DigestEquals(env.hash, e, e.data)
  }

  /** The events up to the first separator. */
  function PreSeparator(es: seq<Event>): seq<Event> {
    if es == [] then []
    else
      var front, e := es[..|es| - 1], es[|es| - 1];
      if HasSeparator(front) || e.typ == SEPARATOR then PreSeparator(front) else PreSeparator(front) + [e]
  }

  function PostSeparator(es: seq<Event>): seq<Event> {
    if es == [] then []
    else
      var front, e := es[..|es| - 1], es[|es| - 1];
      if HasSeparator(front) then PostSeparator(front) + [e] else []
  }

  // ----- PCR 7: variables and authorities -----

  function VariableOf(e: Event): Option<Variable> {
    if e.typ == EFI_VARIABLE_DRIVER_CONFIG then ParseVariable(e.data) else None
  }

  /** The event declares the variable of this name. */
  predicate Declares(env: Env, e: Event, name: string) {
    VariableOf(e).Some? && env.dec.utf16(VariableOf(e).value.name) == name
  }

  predicate Declared(env: Env, es: seq<Event>, name: string) {
    exists e | e in es :: Declares(env, e, name)
  }

  /** The variables whose contents are looked at. */
  datatype VariableKind = SecureBootVariable | PK | KEK | DB | DBX | OtherVariable

  function KindOf(name: string): VariableKind {
    match name
    case "SecureBoot" => SecureBootVariable
    case "PK" => PK
    case "KEK" => KEK
    case "db" => DB
    case "dbx" => DBX
    case _ => OtherVariable
  }

  predicate HoldsSignatures(kind: VariableKind) {
    kind != SecureBootVariable && kind != OtherVariable
  }

  predicate DeclaresKind(env: Env, e: Event, kind: VariableKind) {
    VariableOf(e).Some? && KindOf(env.dec.utf16(VariableOf(e).value.name)) == kind
  }

  predicate VariableOk(env: Env, before: seq<Event>, e: Event) {
    var v := VariableOf(e);
    && v.Some?
    && var name := env.dec.utf16(v.value.name);
    && !Declared(env, before, name)
    && !HasSeparator(before)
    && DigestEquals(env.hash, e, e.data)
    && (KindOf(name) == SecureBootVariable ==> |v.value.data| == 1)
    && (HoldsSignatures(KindOf(name)) ==> ParseSignatureList(env.dec, v.value.data).Some?)
  }

  function AuthorityOf(env: Env, e: Event): Authority {
    if e.typ != EFI_VARIABLE_AUTHORITY then NoAuthority
    else
      match ParseVariable(e.data)
      case None => NoAuthority
      case Some(v) => ParseAuthority(env.dec, v)
  }

  /** An authority without owner GUID may carry one byte that was not measured. */
  predicate AuthorityOk(env: Env, e: Event) {
    var a := AuthorityOf(env, e);
    && a.Authority?
    && (|| DigestEquals(env.hash, e, e.data)
        || (a.missingGUID && |e.data| > 0 && DigestEquals(env.hash, e, e.data[..|e.data| - 1])))
  }

  /** The event is acceptable in PCR 7 behind the given ones. */
  predicate Ok7(env: Env, before: seq<Event>, e: Event) {
    if e.typ == SEPARATOR then SeparatorOk(env, before, e)
    else if e.typ == EFI_ACTION then e.data == Ascii("DMA Protection Disabled") && DigestEquals(env.hash, e, e.data)
    else if e.typ == EFI_VARIABLE_DRIVER_CONFIG then VariableOk(env, before, e)
    else e.typ == EFI_VARIABLE_AUTHORITY && AuthorityOk(env, e)
  }

  predicate Accepts7(env: Env, es: seq<Event>) {
    forall i | 0 <= i < |es| :: Ok7(env, es[..i], es[i])
  }

  /** The signatures of the variable of this kind; none when it is not declared. */
  function Listed(env: Env, es: seq<Event>, kind: VariableKind): Signatures {
    if es == [] then NO_SIGNATURES
    else
      var e := es[|es| - 1];
      if DeclaresKind(env, e, kind) then ParseSignatureList(env.dec, VariableOf(e).value.data).GetOr(NO_SIGNATURES)
      else Listed(env, es[..|es| - 1], kind)
  }

  function AuthorityCerts(env: Env, es: seq<Event>): seq<Certificate> {
    if es == [] then []
    else
      var front, a := es[..|es| - 1], AuthorityOf(env, es[|es| - 1]);
      if a.Authority? then AuthorityCerts(env, front) + a.certs else AuthorityCerts(env, front)
  }

  predicate SecureBootOn(env: Env, e: Event) {
    DeclaresKind(env, e, SecureBootVariable) && VariableOf(e).value.data == [1]
  }

  predicate IsEnabled(env: Env, es: seq<Event>) {
    exists e | e in es :: SecureBootOn(env, e)
  }

  datatype State7 = State7(
    separator: bool, authority: bool, vars: set<string>, enabled: bool, dma: bool,
    pk: Signatures, kek: Signatures, db: Signatures, dbx: Signatures,
    pre: seq<Certificate>, post: seq<Certificate>)

  function Names(env: Env, es: seq<Event>): set<string> {
    set e | e in es && VariableOf(e).Some? :: env.dec.utf16(VariableOf(e).value.name)
  }

  /** What accepted events of PCR 7 say. */
  function Summary7(env: Env, es: seq<Event>): State7 {
    State7(
      HasType(es, SEPARATOR),
      HasType(es, EFI_VARIABLE_AUTHORITY),
      Names(env, es),
      IsEnabled(env, es),
      HasType(es, EFI_ACTION),
      Listed(env, es, PK), Listed(env, es, KEK), Listed(env, es, DB), Listed(env, es, DBX),
      AuthorityCerts(env, PreSeparator(es)), AuthorityCerts(env, PostSeparator(es)))
  }

  // ----- PCR 2: drivers -----

  function DriverPath(e: Event): Option<seq<PathElement>> {
    match ParseImageLoad(e.data)
    case None => None
    case Some(path) => ParsePath(path)
  }

  predicate Ok2(env: Env, before: seq<Event>, e: Event) {
    && Known(e.typ)
    && (e.typ == SEPARATOR ==> SeparatorOk(env, before, e))
    && (e.typ == EFI_BOOT_SERVICES_DRIVER && !HasSeparator(before) ==> DriverPath(e).Some?)
  }

  predicate Accepts2(env: Env, es: seq<Event>) {
    forall i | 0 <= i < |es| :: Ok2(env, es[..i], es[i])
  }

  function DriverPaths(es: seq<Event>): seq<seq<PathElement>> {
    if es == [] then []
    else
      var front, e := es[..|es| - 1], es[|es| - 1];
      if e.typ == EFI_BOOT_SERVICES_DRIVER && DriverPath(e).Some? then DriverPaths(front) + [DriverPath(e).value]
      else DriverPaths(front)
  }

  datatype State2 = State2(separator: bool, sources: seq<seq<PathElement>>)

  function Summary2(es: seq<Event>): State2 {
    State2(HasType(es, SEPARATOR), DriverPaths(PreSeparator(es)))
  }

  datatype DriverLoadSource = UnknownSource | PciMmioSource

  /** A PCI device in the path, and a relative offset range at or behind it. */
  predicate FromPciMmio(path: seq<PathElement>) {
    exists i, j | 0 <= i <= j < |path| ::
      path[i].typ == HARDWARE_DEVICE && path[i].subtype == 0x1 && path[j].typ == MEDIA_DEVICE && path[j].subtype == 0x8
  }

  function Hints(sources: seq<seq<PathElement>>): (h: seq<DriverLoadSource>)
    ensures |h| == |sources|
  {
    seq(|sources|, i requires 0 <= i < |sources| => if FromPciMmio(sources[i]) then PciMmioSource else UnknownSource)
  }

  // ----- The verdict -----

  datatype SecurebootState = SecurebootState(
    enabled: bool, pk: Signatures, kek: Signatures, db: Signatures, dbx: Signatures,
    pre: seq<Certificate>, post: seq<Certificate>, hints: seq<DriverLoadSource>, dma: bool)

  /** The state of the machine as a function of the events of PCR 7 and of PCR 2, however they interleave. */
  function Verdict(env: Env, es7: seq<Event>, es2: seq<Event>): Option<SecurebootState> {
    if !Accepts7(env, es7) || !Accepts2(env, es2) then None
    else Concluded(Summary7(env, es7), Summary2(es2))
  }

  function VerdictOn(env: Env, events: seq<Event>): Option<SecurebootState> {
    Verdict(env, EventsAt(events, 7), EventsAt(events, 2))
  }

  function Concluded(s7: State7, s2: State2): Option<SecurebootState> {
    if s7.enabled && (!s7.authority || s7.pk.Empty() || s7.kek.Empty() || s7.db.Empty()) then None
    else
      Some(SecurebootState(s7.enabled, s7.pk, s7.kek, s7.db, s7.dbx, s7.pre, s7.post, Hints(s2.sources), s7.dma))
  }

  // ----- One event at a time -----

  lemma HasTypeMore(es: seq<Event>, e: Event, typ: uint32)
    ensures HasType(es + [e], typ) <==> HasType(es, typ) || e.typ == typ
  {
  }

  lemma EnabledMore(env: Env, es: seq<Event>, e: Event)
    ensures IsEnabled(env, es + [e]) <==> IsEnabled(env, es) || SecureBootOn(env, e)
  {
  }

  lemma AcceptsMore(env: Env, es: seq<Event>, e: Event)
    ensures Accepts7(env, es + [e]) <==> Accepts7(env, es) && Ok7(env, es, e)
    ensures Accepts2(env, es + [e]) <==> Accepts2(env, es) && Ok2(env, es, e)
  {
    var all := es + [e];
    assert all[..|es|] == es && all[|es|] == e;
    assert forall i | 0 <= i < |es| :: all[..i] == es[..i] && all[i] == es[i];
  }

  lemma ListedMore(env: Env, es: seq<Event>, e: Event, kind: VariableKind)
    ensures Listed(env, es + [e], kind) ==
            if DeclaresKind(env, e, kind) then ParseSignatureList(env.dec, VariableOf(e).value.data).GetOr(NO_SIGNATURES)
            else Listed(env, es, kind)
  {
  }

  lemma NamesMore(env: Env, es: seq<Event>, e: Event)
    ensures Names(env, es + [e]) ==
            if VariableOf(e).Some? then Names(env, es) + {env.dec.utf16(VariableOf(e).value.name)} else Names(env, es)
  {
  }

  lemma NoPostWithoutSeparator(es: seq<Event>)
    requires !HasSeparator(es)
    ensures PostSeparator(es) == []
  {
  }

  lemma AuthorityCertsMore(env: Env, es: seq<Event>, e: Event)
    ensures var a := AuthorityOf(env, e);
            var certs, open := if a.Authority? then a.certs else [], !HasSeparator(es);
            && AuthorityCerts(env, PreSeparator(es + [e])) ==
               AuthorityCerts(env, PreSeparator(es)) + (if open && e.typ != SEPARATOR then certs else [])
            && AuthorityCerts(env, PostSeparator(es + [e])) ==
               AuthorityCerts(env, PostSeparator(es)) + (if open then [] else certs)
  {
  }

  /** How one accepted event changes the summary. */
  function After7(env: Env, s: State7, e: Event): State7 {
    var v, a := VariableOf(e), AuthorityOf(env, e);
    var signatures := if v.Some? then ParseSignatureList(env.dec, v.value.data).GetOr(NO_SIGNATURES) else NO_SIGNATURES;
    var certs := if a.Authority? then a.certs else [];
    State7(
      s.separator || e.typ == SEPARATOR,
      s.authority || e.typ == EFI_VARIABLE_AUTHORITY,
      if v.Some? then s.vars + {env.dec.utf16(v.value.name)} else s.vars,
      s.enabled || SecureBootOn(env, e),
      s.dma || e.typ == EFI_ACTION,
      if DeclaresKind(env, e, PK) then signatures else s.pk,
      if DeclaresKind(env, e, KEK) then signatures else s.kek,
      if DeclaresKind(env, e, DB) then signatures else s.db,
      if DeclaresKind(env, e, DBX) then signatures else s.dbx,
      s.pre + (if s.separator || e.typ == SEPARATOR then [] else certs),
      s.post + (if s.separator then certs else []))
  }

  lemma SummaryMore(env: Env, es: seq<Event>, e: Event)
    ensures Summary7(env, es + [e]) == After7(env, Summary7(env, es), e)
  {
    HasTypeMore(es, e, SEPARATOR);
    HasTypeMore(es, e, EFI_VARIABLE_AUTHORITY);
    HasTypeMore(es, e, EFI_ACTION);
    EnabledMore(env, es, e);
    AuthorityCertsMore(env, es, e);
    ListedMore(env, es, e, PK);
    ListedMore(env, es, e, KEK);
    ListedMore(env, es, e, DB);
    ListedMore(env, es, e, DBX);
    NamesMore(env, es, e);
  }

  lemma Summary2More(es: seq<Event>, e: Event)
    ensures Summary2(es + [e]) == State2(
              Summary2(es).separator || e.typ == SEPARATOR,
              Summary2(es).sources +
              if e.typ == EFI_BOOT_SERVICES_DRIVER && !HasSeparator(es) && DriverPath(e).Some?
              then [DriverPath(e).value] else [])
  {
  }

  // ----- The loop -----

  /** What the machine remembers of the events behind it. */
  ghost predicate Tracks(env: Env, s: State7, before: seq<Event>) {
    && s.separator == HasSeparator(before)
    && (forall name :: name in s.vars <==> Declared(env, before, name))
    && (s.enabled ==> Declared(env, before, "SecureBoot"))
  }

  lemma SummaryTracks(env: Env, es: seq<Event>)
    ensures Tracks(env, Summary7(env, es), es)
  {
  }

  method HandlePCR7(env: Env, s: State7, e: Event, ghost before: seq<Event>) returns (r: Option<State7>)
    requires Tracks(env, s, before)
    ensures r.Some? <==> Ok7(env, before, e)
    ensures r.Some? ==> r.value == After7(env, s, e)
  {
    if !Known(e.typ) {
      return None;
    }
    var digestVerify := DigestEquals(env.hash, e, e.data);
    if e.typ == SEPARATOR {
      if s.separator || e.data != [0, 0, 0, 0] || !digestVerify {
        return None;
      }
      return Some(s.(separator := true));
    } else if e.typ == EFI_ACTION {
      if e.data != Ascii("DMA Protection Disabled") || !digestVerify {
        return None;
      }
      return Some(s.(dma := true));
    } else if e.typ == EFI_VARIABLE_DRIVER_CONFIG {
      r := HandleVariable(env, s, e, digestVerify, before);
    } else if e.typ == EFI_VARIABLE_AUTHORITY {
      r := HandleAuthority(env, s, e, digestVerify);
    } else {
      r := None;
    }
  }

  lemma AfterAuthority(env: Env, s: State7, e: Event)
    requires e.typ == EFI_VARIABLE_AUTHORITY && AuthorityOf(env, e).Authority?
    ensures var certs := AuthorityOf(env, e).certs;
            After7(env, s, e) ==
            if s.separator then s.(authority := true, post := s.post + certs, pre := s.pre + [])
            else s.(authority := true, pre := s.pre + certs, post := s.post + [])
  {
  }

  lemma AfterVariable(env: Env, s: State7, e: Event)
    requires VariableOf(e).Some?
    ensures var data, name := VariableOf(e).value.data, env.dec.utf16(VariableOf(e).value.name);
            var signatures := ParseSignatureList(env.dec, data).GetOr(NO_SIGNATURES);
            var out := s.(vars := s.vars + {name}, pre := s.pre + [], post := s.post + []);
            After7(env, s, e) ==
            match KindOf(name)
            case SecureBootVariable => out.(enabled := s.enabled || data == [1])
            case PK => out.(pk := signatures)
            case KEK => out.(kek := signatures)
            case DB => out.(db := signatures)
            case DBX => out.(dbx := signatures)
            case OtherVariable => out
  {
  }

  method HandleAuthority(env: Env, s: State7, e: Event, verified: bool) returns (r: Option<State7>)
    requires e.typ == EFI_VARIABLE_AUTHORITY && verified == DigestEquals(env.hash, e, e.data)
    ensures r.Some? <==> AuthorityOk(env, e)
    ensures r.Some? ==> r.value == After7(env, s, e)
  {
    var digestVerify := verified;
    if AuthorityOf(env, e).Authority? {
      AfterAuthority(env, s, e);
    }
    assert s.pre + [] == s.pre && s.post + [] == s.post;
    var v := ParseUEFIVariableData(e.data);
    if v == None {
      return None;
    }
    var a := ParseAuthority(env.dec, v.value);
    if a == NoAuthority {
      return None;
    }
    if a.missingGUID && !digestVerify && |e.data| > 0 {
      digestVerify := DigestEquals(env.hash, e, e.data[..|e.data| - 1]);
    }
    if !digestVerify {
      return None;
    }
    if !s.separator {
      r := Some(s.(authority := true, pre := s.pre + a.certs));
    } else {
      r := Some(s.(authority := true, post := s.post + a.certs));
    }
  }

  method HandleVariable(env: Env, s: State7, e: Event, digestVerify: bool, ghost before: seq<Event>)
    returns (r: Option<State7>)
    requires e.typ == EFI_VARIABLE_DRIVER_CONFIG && digestVerify == DigestEquals(env.hash, e, e.data)
    requires Tracks(env, s, before)
    ensures r.Some? <==> VariableOk(env, before, e)
    ensures r.Some? ==> r.value == After7(env, s, e)
  {
    var v := ParseUEFIVariableData(e.data);
    if v == None {
      return None;
    }
    AfterVariable(env, s, e);
    assert s.pre + [] == s.pre && s.post + [] == s.post;
    var name, data := env.dec.utf16(v.value.name), v.value.data;
    if name in s.vars || s.separator || !digestVerify {
      return None;
    }
    var out := s.(vars := s.vars + {name});
    var kind := KindOf(name);
    if kind == SecureBootVariable {
      if |data| != 1 {
        return None;
      }
      return Some(out.(enabled := data[0] == 1));
    }
    if kind == OtherVariable {
      return Some(out);
    }
    var signatures := ParseEfiSignatureList(env.dec, data);
    if signatures == None {
      return None;
    }
    match kind
    case PK => r := Some(out.(pk := signatures.value));
    case KEK => r := Some(out.(kek := signatures.value));
    case DB => r := Some(out.(db := signatures.value));
    case DBX => r := Some(out.(dbx := signatures.value));
  }

  method HandlePCR2(env: Env, s: State2, e: Event, ghost before: seq<Event>) returns (r: Option<State2>)
    requires s == Summary2(before)
    ensures r.Some? <==> Ok2(env, before, e)
    ensures r.Some? ==> r.value == Summary2(before + [e])
  {
    Summary2More(before, e);
    if !Known(e.typ) {
      return None;
    }
    if e.typ == SEPARATOR {
      if s.separator || e.data != [0, 0, 0, 0] || !DigestEquals(env.hash, e, e.data) {
        return None;
      }
      return Some(s.(separator := true));
    }
    if e.typ == EFI_BOOT_SERVICES_DRIVER && !s.separator {
      var load := ParseEFIImageLoad(e.data);
      if load == None {
        return None;
      }
      var path := DevicePath(load.value);
      if path == None {
        return None;
      }
      return Some(s.(sources := s.sources + [path.value]));
    }
    r := Some(s);
  }

  method ClassifySource(source: seq<PathElement>) returns (hint: DriverLoadSource)
    ensures hint == if FromPciMmio(source) then PciMmioSource else UnknownSource
  {
    var seenPCI, i := false, 0;
    while i < |source|
      invariant 0 <= i <= |source|
      invariant seenPCI <==> exists k | 0 <= k < i :: source[k].typ == HARDWARE_DEVICE && source[k].subtype == 0x1
      invariant !FromPciMmio(source[..i])
    {
      var e := source[i];
      if e.typ == HARDWARE_DEVICE && e.subtype == 0x1 {
        seenPCI := true;
      }
      if seenPCI && e.typ == MEDIA_DEVICE && e.subtype == 0x8 {
        return PciMmioSource;
      }
      assert source[..i + 1] == source[..i] + [e];
      i := i + 1;
    }
    assert source[..i] == source;
    hint := UnknownSource;
  }

  method SourceHints(sources: seq<seq<PathElement>>) returns (hints: seq<DriverLoadSource>)
    ensures hints == Hints(sources)
  {
    hints := [];
    var k := 0;
    while k < |sources|
      invariant 0 <= k <= |sources|
      invariant hints == Hints(sources[..k])
    {
      TakeOneMore(sources, k);
      var hint := ClassifySource(sources[k]);
      hints := hints + [hint];
      k := k + 1;
    }
    assert sources[..k] == sources;
  }

  /** The state of the event loop after some events. */
  predicate RunTo(env: Env, events: seq<Event>, s7: State7, s2: State2) {
    && Accepts7(env, EventsAt(events, 7)) && s7 == Summary7(env, EventsAt(events, 7))
    && Accepts2(env, EventsAt(events, 2)) && s2 == Summary2(EventsAt(events, 2))
  }

  /** The body of the event loop: an event of one PCR leaves the other PCR's machine alone. */
  method HandleEvent(env: Env, s7: State7, s2: State2, e: Event, ghost before: seq<Event>)
    returns (r: Option<(State7, State2)>)
    requires RunTo(env, before, s7, s2)
    ensures r.Some? ==> RunTo(env, before + [e], r.value.0, r.value.1)
    ensures r == None ==> !Accepts7(env, EventsAt(before + [e], 7)) || !Accepts2(env, EventsAt(before + [e], 2))
  {
    EventsAtMore(before, e, 7);
    EventsAtMore(before, e, 2);
    if e.index == 7 {
      AcceptsMore(env, EventsAt(before, 7), e);
      SummaryMore(env, EventsAt(before, 7), e);
      SummaryTracks(env, EventsAt(before, 7));
      var next := HandlePCR7(env, s7, e, EventsAt(before, 7));
      return if next.Some? then Some((next.value, s2)) else None;
    } else if e.index == 2 {
      AcceptsMore(env, EventsAt(before, 2), e);
      var next := HandlePCR2(env, s2, e, EventsAt(before, 2));
      return if next.Some? then Some((s7, next.value)) else None;
    }
    r := Some((s7, s2));
  }

  lemma RunStarts(env: Env)
    ensures RunTo(env, [], State7(false, false, {}, false, false,
                                  NO_SIGNATURES, NO_SIGNATURES, NO_SIGNATURES, NO_SIGNATURES, [], []), State2(false, []))
  {
  }

  method RunEvents(env: Env, events: seq<Event>) returns (r: Option<(State7, State2)>)
    ensures r.Some? <==> Accepts7(env, EventsAt(events, 7)) && Accepts2(env, EventsAt(events, 2))
    ensures r.Some? ==> RunTo(env, events, r.value.0, r.value.1)
  {
    var s7 := State7(false, false, {}, false, false, NO_SIGNATURES, NO_SIGNATURES, NO_SIGNATURES, NO_SIGNATURES, [], []);
    var s2, i := State2(false, []), 0;
    RunStarts(env);
    while i < |events|
      invariant 0 <= i <= |events|
      invariant RunTo(env, events[..i], s7, s2)
    {
      assert events[..i + 1] == events[..i] + [events[i]];
      var next := HandleEvent(env, s7, s2, events[i], events[..i]);
      if next == None {
        RejectedStays(env, events, i + 1);
        return None;
      }
      s7, s2 := next.value.0, next.value.1;
      i := i + 1;
    }
    assert events[..i] == events;
    r := Some((s7, s2));
  }

  method ParseSecurebootState(env: Env, events: seq<Event>) returns (r: Option<SecurebootState>)
    ensures r == VerdictOn(env, events)
  {
    var run := RunEvents(env, events);
    if run == None {
      return None;
    }
    var s7, s2 := run.value.0, run.value.1;
    var hints := SourceHints(s2.sources);
    var out := SecurebootState(s7.enabled, s7.pk, s7.kek, s7.db, s7.dbx, s7.pre, s7.post, hints, s7.dma);
    if !out.enabled {
      return Some(out);
    }
    if !s7.authority || out.pk.Empty() || out.kek.Empty() || out.db.Empty() {
      return None;
    }
    r := Some(out);
  }

  /** An error is final: more events never make a rejected run acceptable. */
  lemma {:induction false} RejectedStays(env: Env, events: seq<Event>, n: nat)
    requires n <= |events|
    ensures !Accepts7(env, EventsAt(events[..n], 7)) ==> !Accepts7(env, EventsAt(events, 7))
    ensures !Accepts2(env, EventsAt(events[..n], 2)) ==> !Accepts2(env, EventsAt(events, 2))
    decreases |events|
  {
    if n == |events| {
      assert events[..n] == events;
    } else {
      var front, e := events[..|events| - 1], events[|events| - 1];
      assert events[..n] == front[..n] && events == front + [e];
      RejectedStays(env, front, n);
      EventsAtMore(front, e, 7);
      EventsAtMore(front, e, 2);
      AcceptsMore(env, EventsAt(front, 7), e);
      AcceptsMore(env, EventsAt(front, 2), e);
    }
  }

  // ----- What the verdict rests on -----

  lemma {:induction false} AtConcat(a: seq<Event>, b: seq<Event>, index: int)
    ensures EventsAt(a + b, index) == EventsAt(a, index) + EventsAt(b, index)
  {
    if b == [] {
      assert a + b == a;
    } else {
      var front, e := b[..|b| - 1], b[|b| - 1];
      assert a + b == (a + front) + [e];
      AtConcat(a, front, index);
      EventsAtMore(a + front, e, index);
    }
  }

  lemma AtSwapped(x: Event, y: Event, index: int)
    requires x.index != y.index
    ensures EventsAt([x, y], index) == EventsAt([y, x], index)
  {
  }

  lemma AtWithin(a: seq<Event>, m: seq<Event>, n: seq<Event>, b: seq<Event>, index: int)
    requires EventsAt(m, index) == EventsAt(n, index)
    ensures EventsAt(a + m + b, index) == EventsAt(a + n + b, index)
  {
    AtConcat(a + m, b, index);
    AtConcat(a + n, b, index);
    AtConcat(a, m, index);
    AtConcat(a, n, index);
  }

  /** Neighbouring events of different PCRs can change places, wherever they stand. */
  lemma InterleavingIsIrrelevant(env: Env, a: seq<Event>, x: Event, y: Event, b: seq<Event>)
    requires x.index != y.index
    ensures VerdictOn(env, a + [x, y] + b) == VerdictOn(env, a + [y, x] + b)
  {
    AtSwapped(x, y, 7);
    AtSwapped(x, y, 2);
    AtWithin(a, [x, y], [y, x], b, 7);
    AtWithin(a, [x, y], [y, x], b, 2);
  }

  /** Events of other PCRs can be added or removed anywhere. */
  lemma OtherPCRsAreIrrelevant(env: Env, a: seq<Event>, x: Event, b: seq<Event>)
    requires x.index != 7 && x.index != 2
    ensures VerdictOn(env, a + [x] + b) == VerdictOn(env, a + b)
  {
    EventsAtMore([], x, 7);
    EventsAtMore([], x, 2);
    assert [] + [x] == [x] && a + [] == a;
    AtWithin(a, [x], [], b, 7);
    AtWithin(a, [x], [], b, 2);
  }

  lemma SplitHere(front: seq<Event>, e: Event)
    requires e.typ == SEPARATOR && !HasSeparator(front)
    ensures PreSeparator(front + [e]) == front && PostSeparator(front + [e]) == []
  {
  }

  lemma SplitBehind(front: seq<Event>, e: Event)
    requires HasSeparator(front)
    ensures PreSeparator(front + [e]) == PreSeparator(front) && PostSeparator(front + [e]) == PostSeparator(front) + [e]
  {
  }

  lemma {:induction false} SplitAt(es: seq<Event>, k: nat)
    requires k < |es| && es[k].typ == SEPARATOR && !HasSeparator(es[..k])
    ensures PreSeparator(es) == es[..k] && PostSeparator(es) == es[k + 1..]
  {
    var front, e := es[..|es| - 1], es[|es| - 1];
    assert es == front + [e];
    if k == |front| {
      SplitHere(front, e);
    } else {
      assert front[..k] == es[..k] && front[k] in front;
      SplitAt(front, k);
      SplitBehind(front, e);
      assert es[k + 1..] == front[k + 1..] + [e];
    }
  }

  lemma WholePre(es: seq<Event>)
    requires !HasSeparator(es)
    ensures PreSeparator(es) == es
  {
    if es == [] {
    } else {
      var front, e := es[..|es| - 1], es[|es| - 1];
      assert es == front + [e] && e in es;
      assert forall x | x in front :: x in es;
      WholePre(front);
    }
  }

  /** The authority certificates of an accepted run, divided at its separator. */
  lemma AuthoritiesSplit(env: Env, es: seq<Event>)
    requires Accepts7(env, es)
    ensures forall k | 0 <= k < |es| && es[k].typ == SEPARATOR ::
              Summary7(env, es).pre == AuthorityCerts(env, es[..k]) && Summary7(env, es).post == AuthorityCerts(env, es[k + 1..])
    ensures !HasSeparator(es) ==> Summary7(env, es).pre == AuthorityCerts(env, es) && Summary7(env, es).post == []
  {
    forall k | 0 <= k < |es| && es[k].typ == SEPARATOR
      ensures Summary7(env, es).pre == AuthorityCerts(env, es[..k]) && Summary7(env, es).post == AuthorityCerts(env, es[k + 1..])
    {
      assert Ok7(env, es[..k], es[k]);
      SplitAt(es, k);
    }
    if !HasSeparator(es) {
      WholePre(es);
      NoPostWithoutSeparator(es);
    }
  }

  /** The event's digest matches its data, or all but the last byte of an authority without owner GUID. */
  predicate Measured(env: Env, e: Event) {
    || DigestEquals(env.hash, e, e.data)
    || (&& e.typ == EFI_VARIABLE_AUTHORITY && AuthorityOf(env, e).Authority? && AuthorityOf(env, e).missingGUID
        && |e.data| > 0 && DigestEquals(env.hash, e, e.data[..|e.data| - 1]))
  }

  /** What holds of the events of PCR 7 in every accepted run. */
  lemma AcceptedEvents(env: Env, es: seq<Event>)
    requires Accepts7(env, es)
    ensures forall e | e in es :: Measured(env, e)
    ensures forall e | e in es && e.typ == SEPARATOR :: e.data == [0, 0, 0, 0]
    ensures forall i, j | 0 <= i < j < |es| && es[i].typ == SEPARATOR ::
              es[j].typ != SEPARATOR && es[j].typ != EFI_VARIABLE_DRIVER_CONFIG
    ensures forall i, j, name | 0 <= i < j < |es| && Declares(env, es[i], name) :: !Declares(env, es[j], name)
  {
  }

  lemma OneSecureBoot(env: Env, es: seq<Event>, e: Event, x: Event)
    requires Accepts7(env, es) && e in es && x in es
    requires DeclaresKind(env, e, SecureBootVariable) && DeclaresKind(env, x, SecureBootVariable)
    ensures e == x
  {
    AcceptedEvents(env, es);
    var i :| 0 <= i < |es| && es[i] == e;
    var j :| 0 <= j < |es| && es[j] == x;
    assert Declares(env, es[i], "SecureBoot") && Declares(env, es[j], "SecureBoot");
  }

  predicate Lists(env: Env, es: seq<Event>, kind: VariableKind) {
    exists e | e in es :: ListsSomething(env, e, kind)
  }

  /**
   The state is enabled exactly when the single SecureBoot variable is the byte 1, and then
   an authority was seen and PK, KEK and db each list a key or hash.
   */
  lemma EnabledMeans(env: Env, es7: seq<Event>, es2: seq<Event>, e: Event)
    requires Verdict(env, es7, es2).Some?
    requires e in es7 && DeclaresKind(env, e, SecureBootVariable)
    ensures Verdict(env, es7, es2).value.enabled <==> VariableOf(e).value.data == [1]
  {
    if Summary7(env, es7).enabled {
      var x :| x in es7 && SecureBootOn(env, x);
      OneSecureBoot(env, es7, e, x);
    }
  }

  lemma EnabledNeeds(env: Env, es7: seq<Event>, es2: seq<Event>)
    requires Verdict(env, es7, es2).Some? && Verdict(env, es7, es2).value.enabled
    ensures exists e | e in es7 :: SecureBootOn(env, e)
    ensures HasType(es7, EFI_VARIABLE_AUTHORITY)
    ensures Lists(env, es7, PK) && Lists(env, es7, KEK) && Lists(env, es7, DB)
  {
    ListedFrom(env, es7, PK);
    ListedFrom(env, es7, KEK);
    ListedFrom(env, es7, DB);
  }

  predicate ListsSomething(env: Env, e: Event, kind: VariableKind) {
    && DeclaresKind(env, e, kind)
    && ParseSignatureList(env.dec, VariableOf(e).value.data).Some?
    && !ParseSignatureList(env.dec, VariableOf(e).value.data).value.Empty()
  }

  lemma ListedFrom(env: Env, es: seq<Event>, kind: VariableKind)
    requires !Listed(env, es, kind).Empty()
    ensures Lists(env, es, kind)
  {
    var front, e := es[..|es| - 1], es[|es| - 1];
    assert e in es;
    if DeclaresKind(env, e, kind) {
    } else {
      ListedFrom(env, front, kind);
      assert forall x | x in front :: x in es;
    }
  }

  /** A measured SecureBoot variable of one byte other than 1. */
  predicate Disables(env: Env, e: Event) {
    && DeclaresKind(env, e, SecureBootVariable)
    && |VariableOf(e).value.data| == 1 && VariableOf(e).value.data != [1]
    && DigestEquals(env.hash, e, e.data)
  }

  /** Acceptance depends on the events before only through the summary. */
  lemma OkBySummary(env: Env, a: seq<Event>, b: seq<Event>, e: Event)
    requires Summary7(env, a) == Summary7(env, b)
    ensures Ok7(env, a, e) <==> Ok7(env, b, e)
  {
    SummaryTracks(env, a);
    SummaryTracks(env, b);
    if e.typ == EFI_VARIABLE_DRIVER_CONFIG && VariableOf(e).Some? {
      var name := env.dec.utf16(VariableOf(e).value.name);
      assert Declared(env, a, name) <==> name in Summary7(env, a).vars;
      assert Declared(env, b, name) <==> name in Summary7(env, b).vars;
    }
  }

  lemma DisablingOk(env: Env, a: seq<Event>, e: Event)
    requires Disables(env, e)
    ensures Ok7(env, a, e) <==> !HasSeparator(a) && !Declared(env, a, "SecureBoot")
  {
  }

  lemma DisablingEffect(env: Env, s: State7, e: Event)
    requires Disables(env, e)
    ensures After7(env, s, e) == s.(vars := s.vars + {"SecureBoot"})
  {
  }

  lemma SameEffect(env: Env, a: seq<Event>, x: Event, y: Event)
    requires Disables(env, x) && Disables(env, y)
    ensures Summary7(env, a + [x]) == Summary7(env, a + [y])
    ensures Accepts7(env, a + [x]) <==> Accepts7(env, a + [y])
  {
    SummaryMore(env, a, x);
    SummaryMore(env, a, y);
    DisablingEffect(env, Summary7(env, a), x);
    DisablingEffect(env, Summary7(env, a), y);
    AcceptsMore(env, a, x);
    AcceptsMore(env, a, y);
    DisablingOk(env, a, x);
    DisablingOk(env, a, y);
  }

  lemma {:induction false} SameRun(env: Env, a: seq<Event>, x: Event, y: Event, b: seq<Event>)
    requires Disables(env, x) && Disables(env, y)
    ensures Summary7(env, a + [x] + b) == Summary7(env, a + [y] + b)
    ensures Accepts7(env, a + [x] + b) <==> Accepts7(env, a + [y] + b)
  {
    if b == [] {
      assert a + [x] + b == a + [x] && a + [y] + b == a + [y];
      SameEffect(env, a, x, y);
    } else {
      var front, e := b[..|b| - 1], b[|b| - 1];
      assert a + [x] + b == (a + [x] + front) + [e] && a + [y] + b == (a + [y] + front) + [e];
      SameRun(env, a, x, y, front);
      SummaryMore(env, a + [x] + front, e);
      SummaryMore(env, a + [y] + front, e);
      AcceptsMore(env, a + [x] + front, e);
      AcceptsMore(env, a + [y] + front, e);
      OkBySummary(env, a + [x] + front, a + [y] + front, e);
    }
  }

  /**
   Any byte but 1 is read as disabled, not only 0: in every run one such byte can stand for
   another. The code is more lenient than its comment.
   */
  lemma OtherBytesDisable(env: Env, a: seq<Event>, x: Event, y: Event, b: seq<Event>)
    requires x.index == y.index == 7 && Disables(env, x) && Disables(env, y)
    ensures VerdictOn(env, a + [x] + b) == VerdictOn(env, a + [y] + b)
  {
    EventsAround(a, x, b, 7);
    EventsAround(a, y, b, 7);
    EventsAround(a, x, b, 2);
    EventsAround(a, y, b, 2);
    SameRun(env, EventsAt(a, 7), x, y, EventsAt(b, 7));
  }

  lemma EventsAround(a: seq<Event>, e: Event, b: seq<Event>, index: int)
    ensures EventsAt(a + [e] + b, index) ==
            if e.index == index then EventsAt(a, index) + [e] + EventsAt(b, index)
            else EventsAt(a, index) + EventsAt(b, index)
  {
    EventsAtMore(a, e, index);
    AtConcat(a + [e], b, index);
  }

  const SECURE_BOOT_NAME: seq<uint16> := [0x53, 0x65, 0x63, 0x75, 0x72, 0x65, 0x42, 0x6f, 0x6f, 0x74]

  /** A measured SecureBoot variable of one byte. */
  function SecureBootEvent(hash: HashFunction, x: byte): Event {
    var data := VariableBytes(Variable(Copies(0, 16), SECURE_BOOT_NAME, [x]));
    Event(1, 7, EFI_VARIABLE_DRIVER_CONFIG, data, hash(SHA256, data))
  }

  lemma SecureBootEventParses(hash: HashFunction, x: byte)
    ensures VariableOf(SecureBootEvent(hash, x)) == Some(Variable(Copies(0, 16), SECURE_BOOT_NAME, [x]))
  {
    VariableRoundTrip(Variable(Copies(0, 16), SECURE_BOOT_NAME, [x]));
  }

  lemma AloneAccepted(env: Env, e: Event)
    requires Disables(env, e)
    ensures Verdict(env, [e], []).Some? && !Verdict(env, [e], []).value.enabled
  {
  }

  /** A SecureBoot variable holding the byte 2 is accepted, as disabled. */
  lemma ByteTwoAccepted(env: Env)
    requires env.dec.utf16(SECURE_BOOT_NAME) == "SecureBoot"
    ensures var e := SecureBootEvent(env.hash, 2);
            && DeclaresKind(env, e, SecureBootVariable) && VariableOf(e).value.data == [2]
            && Verdict(env, [e], []).Some? && !Verdict(env, [e], []).value.enabled
  {
    SecureBootEventParses(env.hash, 2);
    AloneAccepted(env, SecureBootEvent(env.hash, 2));
  }
}
