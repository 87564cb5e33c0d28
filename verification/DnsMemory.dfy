/** How long an answer is remembered, and what goes when the table is full, in
    terms of what happened in the run: what was said, when it was stored, and
    when each name was last asked about. */
module DnsMemory {
  import opened Wrappers
  import opened Finite
  import opened DnsTable
  import opened DnsFlight
  import opened DnsRuns

  // ----------------------------------------------- an answer lasts its lifetime

  /** Nothing stored after step `i` and before step `j` is about `host`, or
      pushes `host` out. */
  ghost predicate Spared(cfg: Config, states: seq<State>, steps: seq<Step>, i: nat, j: nat, host: string)
    requires IsRun(cfg, states, steps) && j <= |steps|
  {
    forall m :: i < m < j && steps[m].Remember? ==>
      states[m].callers[steps[m].c].host != host && host in steps[m].table
  }

  /** `host` is in the table with answer `o` until `until`. */
  predicate Keeps(s: State, host: string, o: Outcome, until: nat) {
    host in s.entries && s.entries[host].answer == o && s.entries[host].expiresAt == until
  }

  lemma RememberKeeps(cfg: Config, s: State, c: nat, table: Table, o: Outcome)
    requires 1 <= cfg.maxEntries && TableInv(cfg, s) && Enabled(cfg, s, Remember(c, table))
    requires SaidBy(s, s.callers[c].call, s.callers[c].host, o) && !o.Transient?
    ensures Keeps(Apply(cfg, s, Remember(c, table)), s.callers[c].host, o,
                  s.now + if o.Found? then cfg.positiveTtl else cfg.negativeTtl)
  {
    var pc := s.callers[c];
    assert OutcomeOf(s, pc.host, pc.call) == o;
    StoreKeepsOthers(s.entries, cfg.maxEntries, pc.host, Entry(o, s.now + Ttl(cfg, o), s.now), s.now, table);
  }

  lemma StepKeepsAnswer(cfg: Config, s: State, step: Step, host: string, o: Outcome, until: nat)
    requires 1 <= cfg.maxEntries && TableInv(cfg, s) && Enabled(cfg, s, step) && Keeps(s, host, o, until)
    requires step.Remember? ==> s.callers[step.c].host != host && host in step.table
    ensures Keeps(Apply(cfg, s, step), host, o, until)
  {
    if step.Remember? {
      var pc := s.callers[step.c];
      var p := OutcomeOf(s, pc.host, pc.call);
      if !p.Transient? {
        StoreKeepsOthers(s.entries, cfg.maxEntries, pc.host, Entry(p, s.now + Ttl(cfg, p), s.now), s.now, step.table);
      }
    } else {
      OnlyRememberStores(cfg, s, step);
      hide Enabled, Apply;
    }
  }

  lemma {:induction false} AnswerStays(
    cfg: Config, states: seq<State>, steps: seq<Step>, i: nat, j: nat, host: string, o: Outcome, until: nat)
    requires 1 <= cfg.maxEntries && IsRun(cfg, states, steps) && i < j <= |steps|
    requires Spared(cfg, states, steps, i, j, host) && Keeps(states[i + 1], host, o, until)
    ensures Keeps(states[j], host, o, until)
    decreases j
  {
    hide Enabled, Apply, TableInv, Keeps;
    if i + 1 < j {
      AnswerStays(cfg, states, steps, i, j - 1, host, o, until);
      RunKeepsInv(cfg, states[..j], steps[..j - 1]);
      StepKeepsAnswer(cfg, states[j - 1], steps[j - 1], host, o, until);
    }
  }

  /** An answer lasts exactly its lifetime. Once something was said about a name
      and stored, a caller that asks about the name, with nothing stored in
      between that replaces it or pushes it out, is told just that and at once
      until the TTL has passed, the positive one if the name exists and the
      negative one if not; and from then on it finds nothing. */
  lemma AnswerLastsItsLifetime(
    cfg: Config, states: seq<State>, steps: seq<Step>, i: nat, j: nat, o: Outcome, c: nat)
    requires 1 <= cfg.maxEntries && IsRun(cfg, states, steps) && i < j < |steps| && steps[i].Remember?
    requires var pc := states[i].callers[steps[i].c];
      && SaidBy(states[i], pc.call, pc.host, o) && !o.Transient?
      && Spared(cfg, states, steps, i, j, pc.host) && steps[j] == Arrive(c, pc.host)
    ensures var host := states[i].callers[steps[i].c].host;
      var until := states[i].now + if o.Found? then cfg.positiveTtl else cfg.negativeTtl;
      states[j + 1].callers[c] == if states[j].now < until then Done(host, None, o) else Missed(host)
  {
    hide TableInv, Spared, SaidBy;
    var host := states[i].callers[steps[i].c].host;
    var until := states[i].now + if o.Found? then cfg.positiveTtl else cfg.negativeTtl;
    RunKeepsInv(cfg, states[..i + 1], steps[..i]);
    assert Keeps(states[i + 1], host, o, until) by {
      RememberKeeps(cfg, states[i], steps[i].c, steps[i].table, o);
    }
    AnswerStays(cfg, states, steps, i, j, host, o, until);
  }

  // ------------------------------------------ the longest unused name goes first

  /** In this step the table answered about `host`, or an answer about it was stored. */
  predicate Uses(s: State, step: Step, s': State, host: string) {
    match step
    case Arrive(c, h) => h == host && c in s'.callers && s'.callers[c].Done?
    case LookAgain(c) =>
      c in s.callers && s.callers[c].Initing? && s.callers[c].host == host && c in s'.callers && s'.callers[c].Settled?
    case Remember(c, _) =>
      c in s.callers && s.callers[c].Returned? && s.callers[c].host == host && |s'.memories| > |s.memories|
    case _ => false
  }

  /** When `host` was last used before step `k`. */
  function LastUse(states: seq<State>, steps: seq<Step>, k: nat, host: string): nat
    requires |states| == |steps| + 1 && k <= |steps|
  {
    if k == 0 then 0
    else if Uses(states[k - 1], steps[k - 1], states[k], host) then states[k - 1].now
    else LastUse(states, steps, k - 1, host)
  }

  lemma RememberStamps(cfg: Config, s: State, c: nat, table: Table, host: string)
    requires 1 <= cfg.maxEntries && |s.entries| <= cfg.maxEntries && Enabled(cfg, s, Remember(c, table))
    requires host in table
    ensures var s' := Apply(cfg, s, Remember(c, table));
      if Uses(s, Remember(c, table), s', host) then table[host].lastUsed == s.now
      else host in s.entries && table[host].lastUsed == s.entries[host].lastUsed
  {
    hide Conclude;
    var pc := s.callers[c];
    var p := OutcomeOf(s, pc.host, pc.call);
    if !p.Transient? {
      StoreKeepsOthers(s.entries, cfg.maxEntries, pc.host, Entry(p, s.now + Ttl(cfg, p), s.now), s.now, table);
    }
    hide Stored, OutcomeOf;
  }

  lemma StepStamps(cfg: Config, s: State, step: Step, host: string)
    requires 1 <= cfg.maxEntries && |s.entries| <= cfg.maxEntries && Enabled(cfg, s, step)
    requires host in Apply(cfg, s, step).entries
    ensures var s' := Apply(cfg, s, step);
      if Uses(s, step, s', host) then s'.entries[host].lastUsed == s.now
      else host in s.entries && s'.entries[host].lastUsed == s.entries[host].lastUsed
  {
    hide Stored, OutcomeOf, EndFlight;
    if step.Remember? {
      hide Uses;
      RememberStamps(cfg, s, step.c, step.table, host);
    } else if !step.Arrive? && !step.LookAgain? {
      SameTable(cfg, s, step);
      hide Enabled, Apply;
    }
  }

  lemma SameTable(cfg: Config, s: State, step: Step)
    requires Enabled(cfg, s, step) && !step.Remember? && !step.Arrive? && !step.LookAgain?
    ensures Apply(cfg, s, step).entries == s.entries
  {
    hide Stored, Hit, Touched, OutcomeOf, EndFlight;
  }

  lemma {:induction false} StampsAreUses(cfg: Config, states: seq<State>, steps: seq<Step>, k: nat, host: string)
    requires 1 <= cfg.maxEntries && IsRun(cfg, states, steps) && k <= |steps| && host in states[k].entries
    ensures states[k].entries[host].lastUsed == LastUse(states, steps, k, host)
    decreases k
  {
    hide Enabled, Apply, GuardInv, PermitInv, OutcomeInv, CallInv, Uses;
    if k > 0 {
      RunKeepsInv(cfg, states[..k], steps[..k - 1]);
      StepStamps(cfg, states[k - 1], steps[k - 1], host);
      if !Uses(states[k - 1], steps[k - 1], states[k], host) {
        StampsAreUses(cfg, states, steps, k - 1, host);
      }
    }
  }

  /** In every run a store pushes out a name that has not expired only when the
      table is full and nothing in it has, and then only one, of which no other
      name in the table was last asked about or stored earlier. */
  lemma LongestUnusedGoes(cfg: Config, states: seq<State>, steps: seq<Step>, k: nat, gone: string, other: string)
    requires 1 <= cfg.maxEntries && IsRun(cfg, states, steps) && k < |steps| && steps[k].Remember?
    requires var s := states[k];
      && gone in s.entries && gone != s.callers[steps[k].c].host && gone !in steps[k].table
      && s.now < s.entries[gone].expiresAt && other in s.entries
    ensures |states[k].entries| == cfg.maxEntries && states[k].now < states[k].entries[other].expiresAt
    ensures LastUse(states, steps, k, gone) <= LastUse(states, steps, k, other)
    ensures other != gone && other != states[k].callers[steps[k].c].host ==> other in steps[k].table
  {
    hide LastUse, Enabled, Apply, GuardInv, PermitInv, OutcomeInv, CallInv;
    RunKeepsInv(cfg, states[..k + 1], steps[..k]);
    StampsAreUses(cfg, states, steps, k, gone);
    StampsAreUses(cfg, states, steps, k, other);
    RememberPushesOut(cfg, states[k], steps[k].c, steps[k].table, gone, other);
  }

  lemma RememberPushesOut(cfg: Config, s: State, c: nat, table: Table, gone: string, other: string)
    requires 1 <= cfg.maxEntries && |s.entries| <= cfg.maxEntries && Enabled(cfg, s, Remember(c, table))
    requires gone in s.entries && gone != s.callers[c].host && gone !in table
    requires s.now < s.entries[gone].expiresAt && other in s.entries
    ensures |s.entries| == cfg.maxEntries && s.now < s.entries[other].expiresAt
    ensures s.entries[gone].lastUsed <= s.entries[other].lastUsed
    ensures other != gone && other != s.callers[c].host ==> other in table
  {
    hide Stored, Conclude;
    var pc := s.callers[c];
    var o := OutcomeOf(s, pc.host, pc.call);
    StorePushesOut(s.entries, cfg.maxEntries, pc.host, Entry(o, s.now + Ttl(cfg, o), s.now), s.now, table, gone, other);
  }

  lemma StorePushesOut(
    t: Table, max: nat, host: string, e: Entry, now: nat, t': Table, gone: string, other: string)
    requires 1 <= max && |t| <= max && Stored(t, max, host, e, now, t')
    requires gone in t && gone != host && gone !in t' && now < t[gone].expiresAt && other in t
    ensures |t| == max && now < t[other].expiresAt && t[gone].lastUsed <= t[other].lastUsed
    ensures other != gone && other != host ==> other in t'
  {
    StoreLosesAtMostOne(t, max, host, e, now, t');
    hide Stored;
    var lost := Lost(t, host, now, t');
    assert gone in lost;
    var two := {gone, other};
    if two <= lost {
      SubsetSize(two, lost);
    }
  }
}
