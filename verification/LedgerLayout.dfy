/** The bytes of the ledger's values: every field where the source's encoders write it, in its width. */
module LedgerLayout {
  import opened Codecs
  import opened Ledger
  import opened LedgerCodec
  import opened LedgerRestore
  import opened Sequences

  /** A finality reference: nine fields. */
  lemma FinalityFields(f: Finality)
    requires Fits(FinalityRow(f), FINALITY_WIDTHS)
    ensures LaidOut(FinalityCodec().write(f), [48, 48, 32, 48, 48, 8, 48, 8, 4],
                    [f.chain, f.genesis, f.evidence, f.statementReference, f.transaction, f.height, f.block,
                     f.protocolRevision, f.verifierRevision])
  {
    RowIsLaidOut(FinalityRow(f), FINALITY_WIDTHS);
  }

  /** An instruction: its finality reference, then twelve terms. */
  lemma InstructionFields(i: Instruction)
    requires Fits(FinalityRow(i.finality), FINALITY_WIDTHS) && Fits(TermsRow(i), TERMS_WIDTHS)
    ensures var b := InstructionCodec().write(i);
            && |b| >= 292 && b[..292] == FinalityCodec().write(i.finality)
            && LaidOut(b[292..], [48, 48, 48, 48, 48, 32, 1, 16, 48, 2, 2, 8],
                       [i.submitter, i.payer, i.executor, i.agreement, i.capability, i.authorizationScope, 1, i.amount,
                        i.unit, i.settlementPolicy, i.reputationPolicy, i.logicalTime])
  {
    InstructionWidths();
    RowIsLaidOut(TermsRow(i), TERMS_WIDTHS);
    TwoParts(FinalityCodec().write(i.finality), WriteRow(TermsRow(i), TERMS_WIDTHS));
  }

  lemma InstructionSize(i: Instruction)
    requires Fits(FinalityRow(i.finality), FINALITY_WIDTHS) && Fits(TermsRow(i), TERMS_WIDTHS)
    ensures |InstructionCodec().write(i)| == 641
  {
    InstructionWidths();
  }

  /** A record: two ids, its instruction, then seven numbers. */
  lemma RecordFields(r: Record)
    requires RecordSized(r)
    ensures var b := RecordCodec().write(r);
            && |b| >= 737 && LaidOut(b[..96], [48, 48], [r.settlementId, r.idempotencyId])
            && b[96..737] == InstructionCodec().write(r.instruction)
            && LaidOut(b[737..], [8, 16, 16, 16, 16, 48, 48],
                       [r.sequence, r.payerBefore, r.payerAfter, r.executorBefore, r.executorAfter,
                        r.previousCommitment, r.resultingCommitment])
  {
    RecordWidths();
    InstructionSize(r.instruction);
    RowIsLaidOut(IdsRow(r), [48, 48]);
    RowIsLaidOut(OutcomeRow(r), OUTCOME_WIDTHS);
    ThreeParts(WriteRow(IdsRow(r), [48, 48]), InstructionCodec().write(r.instruction),
               WriteRow(OutcomeRow(r), OUTCOME_WIDTHS));
  }

  /** A reputation event: nine fields, the assurance class and the completion one byte each. */
  lemma EventFields(e: Event)
    requires EventSized(e)
    ensures LaidOut(EventCodec().write(e), [48, 48, 32, 48, 48, 1, 1, 8, 2],
                    [e.eventId, e.settlementId, e.evidence, e.executor, e.capability, 1, if e.completed then 1 else 0,
                     e.sequence, e.policy])
  {
    RowIsLaidOut(EventRow(e), EVENT_WIDTHS);
  }

  lemma SixWritten<A, B, C, D, E, F, T>(
    a: Codec<A>, b: Codec<B>, c: Codec<C>, d: Codec<D>, e: Codec<E>, f: Codec<F>,
    s: Layout<(A, (B, (C, (D, (E, F))))), T>, x: T)
    ensures var all, y := Shaped(Both(a, Both(b, Both(c, Both(d, Both(e, f))))), s).write(x), s.parts(x);
            var front, last := a.write(y.0), f.write(y.1.1.1.1.1);
            && |front| + |last| <= |all| && all[..|front|] == front && all[|all| - |last|..] == last
            && all[|front|..|all| - |last|]
            == b.write(y.1.0) + c.write(y.1.1.0) + d.write(y.1.1.1.0) + e.write(y.1.1.1.1.0)
  {
    var y := s.parts(x);
    SixJoined(a.write(y.0), b.write(y.1.0), c.write(y.1.1.0), d.write(y.1.1.1.0), e.write(y.1.1.1.1.0),
              f.write(y.1.1.1.1.1));
  }

  /** A snapshot: chain, unit and authority, then the four lists, then the sequence. */
  lemma SnapshotFields(p: Snapshot)
    requires Fits([p.chain, p.unit, p.authority], [48, 48, 48]) && Fits([p.sequence], [8])
    ensures var b := SnapshotCodec().write(p);
            && |b| >= 152 && LaidOut(b[..144], [48, 48, 48], [p.chain, p.unit, p.authority])
            && LaidOut(b[|b| - 8..], [8], [p.sequence])
            && b[144..|b| - 8]
            == AccountsCodec().write(p.accounts) + SettlementsCodec().write(p.settlements)
               + IdempotencyCodec().write(p.idempotency) + EventsCodec().write(p.events)
  {
    EventWidths();
    RowIsLaidOut([p.chain, p.unit, p.authority], [48, 48, 48]);
    RowIsLaidOut([p.sequence], [8]);
    SixWritten(RowOf([48, 48, 48]), AccountsCodec(), SettlementsCodec(), IdempotencyCodec(), EventsCodec(),
               NumberCodec(8), SnapshotLayout(), p);
  }

  lemma SixJoined<T>(a: seq<T>, b: seq<T>, c: seq<T>, d: seq<T>, e: seq<T>, f: seq<T>)
    ensures var all := a + (b + (c + (d + (e + f))));
            && |a| + |f| <= |all| && all[..|a|] == a && all[|all| - |f|..] == f
            && all[|a|..|all| - |f|] == b + c + d + e
  {
    assert a + (b + (c + (d + (e + f)))) == a + ((b + c + d + e) + f);
    ThreeParts(a, b + c + d + e, f);
  }
}
