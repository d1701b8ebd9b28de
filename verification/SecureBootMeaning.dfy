/**
 What ParseSecurebootState makes of a run of events (attest/secureboot.go), told by event
 types, variable names and positions: which runs it accepts, and where each field comes from.
 */
module SecureBootMeaning {
  import opened Bytes
  import opened Hashing
  import opened Replay
  import opened Sorting
  import opened ReplayMeaning
  import opened UefiEvents
  import opened SecureBoot

  // ----- Which runs are accepted -----

  /** The digest of the event is a hash of these bytes. */
  predicate Matches(env: Env, e: Event, b: bytes) {
    e.digest == env.hash(SHA1, b) || e.digest == env.hash(SHA256, b)
  }

  predicate IsVariable(e: Event) {
    e.typ == 0x80000001 && ParseVariable(e.data).Some?
  }

  function NameOf(env: Env, e: Event): string
    requires IsVariable(e)
  {
    env.dec.utf16(ParseVariable(e.data).value.name)
  }

  function DataOf(e: Event): bytes
    requires IsVariable(e)
  {
    ParseVariable(e.data).value.data
  }

  /** A measured variable: one byte for SecureBoot, signature lists for PK, KEK, db and dbx, anything for others. */
  predicate VariableFine(env: Env, e: Event) {
    && IsVariable(e) && Matches(env, e, e.data)
    && (NameOf(env, e) == "SecureBoot" ==> |DataOf(e)| == 1)
    && (NameOf(env, e) == "PK" || NameOf(env, e) == "KEK" || NameOf(env, e) == "db" || NameOf(env, e) == "dbx" ==>
          ParseSignatureList(env.dec, DataOf(e)).Some?)
  }

  predicate AuthorityFine(env: Env, e: Event) {
    && e.typ == 0x800000e0 && ParseVariable(e.data).Some?
    && match ParseAuthority(env.dec, ParseVariable(e.data).value)
       case NoAuthority => false
       case Authority(_, missingGUID) =>
         || Matches(env, e, e.data)
         || (missingGUID && e.data != [] && Matches(env, e, e.data[..|e.data| - 1]))
  }

  /** An event acceptable in PCR 7 on its own. */
  predicate Fine7(env: Env, e: Event) {
    || (e.typ == 4 && e.data == [0, 0, 0, 0] && Matches(env, e, e.data))
    || (e.typ == 0x80000007 && e.data == Ascii("DMA Protection Disabled") && Matches(env, e, e.data))
    || VariableFine(env, e)
    || AuthorityFine(env, e)
  }

  /** One separator, behind which no variable is declared. */
  predicate SeparatedOnce(es: seq<Event>) {
    forall i, j | 0 <= i < j < |es| && es[i].typ == 4 :: es[j].typ != 4 && es[j].typ != 0x80000001
  }

  predicate NamedOnce(env: Env, es: seq<Event>) {
    forall i, j | 0 <= i < j < |es| && IsVariable(es[i]) && IsVariable(es[j]) :: NameOf(env, es[i]) != NameOf(env, es[j])
  }

  lemma SeparatorBefore(es: seq<Event>, i: nat)
    requires i <= |es|
    ensures HasSeparator(es[..i]) <==> exists k | 0 <= k < i :: es[k].typ == 4
  {
  }

  lemma DeclaredBefore(env: Env, es: seq<Event>, i: nat, name: string)
    requires i <= |es|
    ensures Declared(env, es[..i], name) <==> exists k | 0 <= k < i :: IsVariable(es[k]) && NameOf(env, es[k]) == name
  {
    if k :| 0 <= k < i && IsVariable(es[k]) && NameOf(env, es[k]) == name {
      assert es[..i][k] in es[..i];
    }
  }

  /** No separator before position i. */
  predicate Open(es: seq<Event>, i: nat)
    requires i <= |es|
  {
    forall k | 0 <= k < i :: es[k].typ != 4
  }

  predicate NewName(env: Env, es: seq<Event>, i: nat)
    requires i < |es| && IsVariable(es[i])
  {
    forall k | 0 <= k < i && IsVariable(es[k]) :: NameOf(env, es[k]) != NameOf(env, es[i])
  }

  lemma SeparatorOkIs(env: Env, es: seq<Event>, i: nat)
    requires i < |es|
    ensures SeparatorOk(env, es[..i], es[i]) <==>
              Open(es, i) && es[i].data == [0, 0, 0, 0] && Matches(env, es[i], es[i].data)
  {
  }

  lemma VariableOkIs(env: Env, es: seq<Event>, i: nat)
    requires i < |es|
    ensures VariableOk(env, es[..i], es[i]) <==> VariableFine(env, es[i]) && Open(es, i) && NewName(env, es, i)
  {
    SeparatorBefore(es, i);
    DigestMeans(env.hash, es[i], es[i].data);
    if IsVariable(es[i]) {
      DeclaredBefore(env, es, i, NameOf(env, es[i]));
    }
  }

  lemma AuthorityOkIs(env: Env, e: Event)
    ensures AuthorityOk(env, e) <==> AuthorityFine(env, e)
  {
    DigestMeans(env.hash, e, e.data);
    if e.data != [] {
      DigestMeans(env.hash, e, e.data[..|e.data| - 1]);
    }
  }

  /** The event is acceptable behind the others of the run. */
  predicate FineAt(env: Env, es: seq<Event>, i: nat)
    requires i < |es|
  {
    && Fine7(env, es[i])
    && (es[i].typ == 4 || es[i].typ == 0x80000001 ==> Open(es, i))
    && (IsVariable(es[i]) ==> NewName(env, es, i))
  }

  lemma Ok7Is(env: Env, es: seq<Event>, i: nat)
    requires i < |es|
    ensures Ok7(env, es[..i], es[i]) <==> FineAt(env, es, i)
  {
    SeparatorOkIs(env, es, i);
    VariableOkIs(env, es, i);
    AuthorityOkIs(env, es[i]);
    DigestMeans(env.hash, es[i], es[i].data);
  }

  /** A run of PCR 7 is accepted exactly when each event is fine on its own, and separator and names occur once. */
  lemma Accepts7Iff(env: Env, es: seq<Event>)
    ensures Accepts7(env, es) <==> (forall i | 0 <= i < |es| :: Fine7(env, es[i])) && SeparatedOnce(es) && NamedOnce(env, es)
  {
    forall i | 0 <= i < |es| ensures Ok7(env, es[..i], es[i]) <==> FineAt(env, es, i) {
      Ok7Is(env, es, i);
    }
  }

  /** The types with a name: the conventional ones, and those of UEFI. */
  predicate Named(typ: uint32) {
    typ <= 18 || 0x80000000 <= typ <= 0x80000009 || typ == 0x80000010 || typ == 0x800000e0
  }

  /** The event carries a device path. */
  predicate HasPath(e: Event) {
    ParseImageLoad(e.data).Some? && ParsePath(ParseImageLoad(e.data).value).Some?
  }

  predicate Fine2(env: Env, es: seq<Event>, i: nat)
    requires i < |es|
  {
    && Named(es[i].typ)
    && (es[i].typ == 4 ==> es[i].data == [0, 0, 0, 0] && Matches(env, es[i], es[i].data))
    && (es[i].typ == 0x80000004 && Open(es, i) ==> HasPath(es[i]))
  }

  /**
   A run of PCR 2 is accepted exactly when its types are known, the drivers before its separator
   have paths, and there is at most one separator.
   */
  lemma Accepts2Iff(env: Env, es: seq<Event>)
    ensures Accepts2(env, es) <==>
              && (forall i | 0 <= i < |es| :: Fine2(env, es, i))
              && (forall i, j | 0 <= i < j < |es| && es[i].typ == 4 :: es[j].typ != 4)
  {
    forall i | 0 <= i < |es|
      ensures Ok2(env, es[..i], es[i]) <==> Fine2(env, es, i) && (es[i].typ == 4 ==> Open(es, i))
    {
      SeparatorBefore(es, i);
      SeparatorOkIs(env, es, i);
    }
  }

  // ----- The events of one PCR -----

  /** The positions of the events of a PCR. */
  function PositionsOf(events: seq<Event>, index: int): set<nat> {
    set k: nat | k < |events| && events[k].index == index
  }

  /** The events of a PCR are those at its positions, in order. */
  lemma {:induction false} EventsAtAre(events: seq<Event>, index: int, ks: seq<nat>)
    requires Enumerates(ks, PositionsOf(events, index))
    ensures |EventsAt(events, index)| == |ks| && forall i | 0 <= i < |ks| :: EventsAt(events, index)[i] == events[ks[i]]
  {
    if events == [] {
    } else {
      var n := |events| - 1;
      assert PositionsOf(events[..n], index) == PositionsOf(events, index) - {n};
      if events[n].index == index {
        EnumeratesLast(ks, PositionsOf(events, index), n);
        EventsAtAre(events[..n], index, ks[..|ks| - 1]);
      } else {
        EventsAtAre(events[..n], index, ks);
      }
    }
  }

  // ----- Fields -----

  predicate DeclaresName(env: Env, e: Event, name: string) {
    IsVariable(e) && NameOf(env, e) == name
  }

  /** The signature lists of the variable of this name; none when it is not declared. */
  predicate ListsOf(env: Env, es: seq<Event>, name: string, s: Signatures) {
    && (forall e | e in es && DeclaresName(env, e, name) :: ParseSignatureList(env.dec, DataOf(e)) == Some(s))
    && ((forall e | e in es :: !DeclaresName(env, e, name)) ==> s == Signatures([], []))
  }

  lemma {:induction false} ListedIs(env: Env, es: seq<Event>, kind: VariableKind, name: string)
    requires forall e | e in es && DeclaresName(env, e, name) :: ParseSignatureList(env.dec, DataOf(e)).Some?
    requires forall e | e in es :: DeclaresKind(env, e, kind) <==> DeclaresName(env, e, name)
    requires NamedOnce(env, es)
    ensures ListsOf(env, es, name, Listed(env, es, kind))
  {
    if es == [] {
    } else {
      var n := |es| - 1;
      assert forall x :: x in es <==> x in es[..n] || x == es[n];
      if DeclaresName(env, es[n], name) {
        forall e | e in es && DeclaresName(env, e, name) ensures e == es[n] {
          var i :| 0 <= i < |es| && es[i] == e;
          assert !(i < n);
        }
      } else {
        ListedIs(env, es[..n], kind, name);
      }
    }
  }

  lemma KindNames(s: string)
    ensures KindOf(s) == SecureBootVariable <==> s == "SecureBoot"
    ensures KindOf(s) == PK <==> s == "PK"
    ensures KindOf(s) == KEK <==> s == "KEK"
    ensures KindOf(s) == DB <==> s == "db"
    ensures KindOf(s) == DBX <==> s == "dbx"
  {
  }

  predicate TurnsOn(env: Env, e: Event) {
    DeclaresName(env, e, "SecureBoot") && DataOf(e) == [1]
  }

  lemma EnabledIs(env: Env, es: seq<Event>)
    ensures IsEnabled(env, es) <==> exists e | e in es :: TurnsOn(env, e)
  {
  }

  /** Where the fields of an accepted run's state come from. */
  lemma FieldsByName(env: Env, events: seq<Event>)
    requires VerdictOn(env, events).Some?
    ensures var es, s := EventsAt(events, 7), VerdictOn(env, events).value;
            && ListsOf(env, es, "PK", s.pk) && ListsOf(env, es, "KEK", s.kek)
            && ListsOf(env, es, "db", s.db) && ListsOf(env, es, "dbx", s.dbx)
            && (s.enabled <==> exists e | e in es :: TurnsOn(env, e))
            && (s.dma <==> exists e | e in es :: e.typ == 0x80000007)
  {
    var es := EventsAt(events, 7);
    Accepts7Iff(env, es);
    EnabledIs(env, EventsAt(events, 7));
    ListedByName(env, es, PK, "PK");
    ListedByName(env, es, KEK, "KEK");
    ListedByName(env, es, DB, "db");
    ListedByName(env, es, DBX, "dbx");
  }

  lemma ListedByName(env: Env, es: seq<Event>, kind: VariableKind, name: string)
    requires Accepts7(env, es)
    requires (kind, name) in {(PK, "PK"), (KEK, "KEK"), (DB, "db"), (DBX, "dbx")}
    ensures ListsOf(env, es, name, Listed(env, es, kind))
  {
    Accepts7Iff(env, es);
    forall e | e in es ensures DeclaresKind(env, e, kind) <==> DeclaresName(env, e, name) {
      if IsVariable(e) {
        KindNames(NameOf(env, e));
      }
    }
    forall e | e in es && DeclaresName(env, e, name) ensures ParseSignatureList(env.dec, DataOf(e)).Some? {
      var i :| 0 <= i < |es| && es[i] == e;
      assert Fine7(env, es[i]);
    }
    ListedIs(env, es, kind, name);
  }

  /** A run with acceptable events is refused exactly when secure boot is on without an authority, or without keys. */
  lemma RefusedIff(env: Env, events: seq<Event>)
    ensures var es, s := EventsAt(events, 7), Summary7(env, EventsAt(events, 7));
            VerdictOn(env, events) == None <==>
              || !Accepts7(env, es) || !Accepts2(env, EventsAt(events, 2))
              || (&& (exists e | e in es :: TurnsOn(env, e))
                  && ((forall e | e in es :: e.typ != 0x800000e0) ||
                      s.pk == Signatures([], []) || s.kek == Signatures([], []) || s.db == Signatures([], [])))
  {
    EnabledIs(env, EventsAt(events, 7));
  }

  // ----- Authorities -----

  function CertsFrom(env: Env, e: Event): seq<Certificate> {
    if e.typ != 0x800000e0 then []
    else
      match ParseVariable(e.data)
      case None => []
      case Some(v) =>
        match ParseAuthority(env.dec, v)
        case NoAuthority => []
        case Authority(certs, _) => certs
  }

  lemma CertsMore(env: Env, es: seq<Event>, e: Event)
    ensures AuthorityCerts(env, es + [e]) == AuthorityCerts(env, es) + CertsFrom(env, e)
  {
  }

  lemma {:induction false} CertsConcat(env: Env, a: seq<Event>, b: seq<Event>)
    ensures AuthorityCerts(env, a + b) == AuthorityCerts(env, a) + AuthorityCerts(env, b)
  {
    if b == [] {
      assert a + b == a;
    } else {
      var front, e := b[..|b| - 1], b[|b| - 1];
      assert a + b == (a + front) + [e] && b == front + [e];
      CertsConcat(env, a, front);
      CertsMore(env, a + front, e);
      CertsMore(env, front, e);
    }
  }

  /** The certificates of a run are those of its authorities, one event after the other. */
  lemma CertsAre(env: Env, a: seq<Event>, e: Event, b: seq<Event>)
    ensures AuthorityCerts(env, []) == []
    ensures AuthorityCerts(env, a + [e] + b) == AuthorityCerts(env, a) + CertsFrom(env, e) + AuthorityCerts(env, b)
  {
    CertsMore(env, a, e);
    CertsConcat(env, a + [e], b);
  }

  lemma AuthoritiesAround(env: Env, es: seq<Event>, k: nat)
    requires Accepts7(env, es) && k <= |es| && Open(es, k) && (k < |es| ==> es[k].typ == 4)
    ensures Summary7(env, es).pre == AuthorityCerts(env, es[..k])
    ensures Summary7(env, es).post == if k < |es| then AuthorityCerts(env, es[k + 1..]) else []
  {
    AuthoritiesSplit(env, es);
    SeparatorBefore(es, |es|);
    assert es[..|es|] == es;
  }

  /** Authorities before the separator and behind it are kept apart. */
  lemma AuthoritiesOf(env: Env, events: seq<Event>, k: nat)
    requires VerdictOn(env, events).Some?
    requires k <= |EventsAt(events, 7)| && Open(EventsAt(events, 7), k)
    requires k < |EventsAt(events, 7)| ==> EventsAt(events, 7)[k].typ == 4
    ensures var es, s := EventsAt(events, 7), VerdictOn(env, events).value;
            && s.pre == AuthorityCerts(env, es[..k])
            && s.post == if k < |es| then AuthorityCerts(env, es[k + 1..]) else []
  {
    AuthoritiesAround(env, EventsAt(events, 7), k);
  }

  // ----- Drivers -----

  /** The positions of the drivers loaded before the separator. */
  function Drivers(es: seq<Event>): set<nat> {
    set k: nat | k < |es| && es[k].typ == 0x80000004 && Open(es, k)
  }

  /** A PCI device in the path, and a relative offset range at or behind it. */
  predicate FromPci(e: Event) {
    && HasPath(e)
    && var path := ParsePath(ParseImageLoad(e.data).value).value;
       exists i, j | 0 <= i <= j < |path| ::
         path[i].typ == 1 && path[i].subtype == 1 && path[j].typ == 4 && path[j].subtype == 8
  }

  lemma DriversMore(es: seq<Event>, e: Event)
    ensures Drivers(es + [e]) == Drivers(es) + if e.typ == 0x80000004 && !HasSeparator(es) then {|es|} else {}
  {
    var all := es + [e];
    SeparatorBefore(all, |es|);
    assert all[..|es|] == es;
    forall k: nat | k < |es| ensures Open(all, k) <==> Open(es, k) {
      assert forall i | 0 <= i < k :: all[i] == es[i];
    }
  }

  lemma {:induction false} SourcesAre(env: Env, es: seq<Event>, ks: seq<nat>)
    requires Accepts2(env, es) && Enumerates(ks, Drivers(es))
    ensures |Summary2(es).sources| == |ks|
    ensures forall i | 0 <= i < |ks| :: DriverPath(es[ks[i]]) == Some(Summary2(es).sources[i])
  {
    if es == [] {
    } else {
      var n := |es| - 1;
      var front, e := es[..n], es[n];
      assert es == front + [e];
      AcceptsMore(env, front, e);
      Summary2More(front, e);
      DriversMore(front, e);
      if n in Drivers(es) {
        EnumeratesLast(ks, Drivers(es), n);
        assert Drivers(es) - {n} == Drivers(front);
        SourcesAre(env, front, ks[..|ks| - 1]);
      } else {
        SourcesAre(env, front, ks);
      }
    }
  }

  /** There is a hint for each driver loaded before the separator of PCR 2, in order. */
  lemma HintsAre(env: Env, events: seq<Event>, ks: seq<nat>)
    requires VerdictOn(env, events).Some? && Enumerates(ks, Drivers(EventsAt(events, 2)))
    ensures var es, hints := EventsAt(events, 2), VerdictOn(env, events).value.hints;
            |hints| == |ks| && forall i | 0 <= i < |ks| ::
              hints[i] == if FromPci(es[ks[i]]) then PciMmioSource else UnknownSource
  {
    SourcesAre(env, EventsAt(events, 2), ks);
  }
}
