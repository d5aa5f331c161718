/** What single calls of the object do, in terms of the config, the schedules and the sessions they are about. */
module DeviceFacts {
  import opened Basics
  import opened SessionStore
  import opened SessionFacts
  import F = SessionFacts
  import opened Reconciliation
  import opened TargetMatch
  import opened Schedules
  import opened ScheduleMeaning
  import opened ConfigModel
  import opened ConfigGuard
  import opened Validation
  import opened ConfigEdits
  import opened EditFacts
  import opened SoundnessMeaning
  import opened Device
  import P = PassRation
  import E = SessionEndings

  /** Every rule the profiles of running sessions have in `c` is there in `next`, with what it did. */
  ghost predicate KeepsWhatRuns(d: DeviceState, next: Config) {
    forall s :: s in d.store.running ==> Kept(d.config, next, s.profile)
  }

  lemma WeakensExactlyWhen(d: DeviceState, next: Config)
    ensures Weakens(d, next) <==> !KeepsWhatRuns(d, next)
  {
    hide Weakening, Kept;
    GuardPassesExactlyWhen(d.config, next, d.store.running, NamesOf(d.config.profiles));
  }

  /** A config that is handed over becomes the config exactly when it is sound and keeps what runs. */
  lemma SetConfigFacts(d: DeviceState, next: Config)
    ensures AfterCall(d, SetConfig(Some(next))) ==
              if IsSound(next) && KeepsWhatRuns(d, next) then d.(config := next) else d
    ensures AfterCall(d, SetConfig(None)) == d
  {
    hide Valid, IsSound, Weakens, KeepsWhatRuns;
    ValidExactlyWhen(next);
    WeakensExactlyWhen(d, next);
  }

  /** A running session came from the schedule. */
  predicate InUse(d: DeviceState, schedule: string) {
    exists i :: 0 <= i < |d.store.running| &&
      match d.store.running[i].source
      case Manual => false
      case FromWeekly(id) => id == schedule
      case FromCalendar(id, _) => id == schedule
  }

  lemma HeldExactlyWhen(d: DeviceState, schedule: string)
    ensures HeldBy(d.store.running, schedule) <==> InUse(d, schedule)
  {
    if HeldBy(d.store.running, schedule) {
      var s :| s in d.store.running && !s.source.Manual? && s.source.schedule == schedule;
      var i :| 0 <= i < |d.store.running| && d.store.running[i] == s;
    }
    if i :| 0 <= i < |d.store.running| &&
            match d.store.running[i].source
            case Manual => false
            case FromWeekly(id) => id == schedule
            case FromCalendar(id, _) => id == schedule {
      assert d.store.running[i] in d.store.running;
    }
  }

  /** The window of a running session stays; any other goes, and takes nothing with it. */
  lemma WeeklyRemovalFacts(d: DeviceState, id: string)
    ensures var next := AfterCall(d, RemoveWeekly(id));
            && (InUse(d, id) ==> next == d)
            && next == d.(config := d.config.(weekly := next.config.weekly))
            && (!InUse(d, id) ==> forall w :: w in next.config.weekly <==> w in d.config.weekly && w.id != id)
  {
    hide InUse, HeldBy, Where;
    HeldExactlyWhen(d, id);
    WhereMembers(d.config.weekly, (w: WeeklySchedule) => w.id != id);
  }

  /** The same of calendar rules. */
  lemma CalendarRemovalFacts(d: DeviceState, id: string)
    ensures var next := AfterCall(d, RemoveCalendar(id));
            && (InUse(d, id) ==> next == d)
            && next == d.(config := d.config.(calendars := next.config.calendars))
            && (!InUse(d, id) ==> forall s :: s in next.config.calendars <==> s in d.config.calendars && s.id != id)
  {
    hide InUse, HeldBy, Where;
    HeldExactlyWhen(d, id);
    WhereMembers(d.config.calendars, (s: CalendarSchedule) => s.id != id);
  }

  /** Some window of the config is active by the clock, or some calendar rule fits an event, and asks for `a`. */
  ghost predicate Scheduled(d: DeviceState, events: seq<CalendarEvent>, now: Timestamp, a: Activation) {
    || (exists w :: w in d.config.weekly && WeeklyActiveAt(w, now, d.config.offset) == Some(a))
    || (exists c :: c in d.config.calendars && CalendarAsks(c, events, now, a))
  }

  /** After a reconcile a profile runs exactly when it ran, or the schedules ask for it and the ask is due. */
  lemma ReconcileFacts(d: DeviceState, now: Timestamp, events: seq<CalendarEvent>, mint: nat -> string, p: string)
    requires Unique(d.store.running)
    ensures Runs(AfterCall(d, ReconcileWith(now, events, mint)).store, p) <==>
              || Runs(d.store, p)
              || exists a: Activation :: a.profile == p && Scheduled(d, events, now, a) && IsDue(d.store, now, a)
  {
    hide Reconcile, ActiveAt, WeeklyActiveAt, CalendarAsks, IsDue;
    var acts := ActiveAt(PlanOf(d.config, events), now);
    ReconcileRunsExactlyWhen(d.store, now, acts, mint, p);
    forall a ensures a in acts <==> Scheduled(d, events, now, a) {
      ActiveExactlyWhen(PlanOf(d.config, events), now, a);
    }
  }

  // ----- Edits -----

  /** A rule is written exactly when its profile is there, it can be used, and no running rule changes by it. */
  lemma UpsertRuleFacts(d: DeviceState, profile: string, rule: Rule)
    requires Valid(d.config)
    ensures AfterCall(d, UpsertRule(profile, rule)) ==
              if && FindProfile(d.config, profile).Some? && UsableAction(rule.action)
                 && KeepsWhatRuns(d, WithRule(d.config, profile, rule))
              then d.(config := WithRule(d.config, profile, rule)) else d
  {
    hide Valid, Weakens, KeepsWhatRuns, WithRule, FindProfile, SoundAction, UsableAction;
    if FindProfile(d.config, profile).Some? {
      RuleIsTakenExactlyWhen(d.config, profile, rule);
      ActionExactlyWhen(rule.action);
      WeakensExactlyWhen(d, WithRule(d.config, profile, rule));
    }
  }

  lemma RemoveRuleFacts(d: DeviceState, profile: string, target: Target)
    ensures var next := WithoutRule(d.config, profile, Key(target));
            AfterCall(d, RemoveRule(profile, target)) == if KeepsWhatRuns(d, next) then d.(config := next) else d
  {
    hide Weakens, KeepsWhatRuns, WithoutRule;
    WeakensExactlyWhen(d, WithoutRule(d.config, profile, Key(target)));
  }

  lemma UpsertProfileFacts(d: DeviceState, id: string, name: string, description: string)
    requires Valid(d.config)
    ensures AfterCall(d, UpsertProfile(id, name, description)) ==
              if Says(id) && Says(name) then d.(config := WithProfile(d.config, id, name, description)) else d
  {
    hide Valid, WithProfile, Blank, Says;
    ProfileIsTakenExactlyWhen(d.config, id, name, description);
    BlankExactlyWhen(id);
    BlankExactlyWhen(name);
  }

  /** A profile goes exactly when no schedule names it and no running rule goes with it. */
  lemma RemoveProfileFacts(d: DeviceState, id: string)
    ensures var next := WithoutProfile(d.config, id);
            AfterCall(d, RemoveProfile(id)) ==
              if && (forall i :: 0 <= i < |d.config.weekly| ==> d.config.weekly[i].profile != id)
                 && (forall i :: 0 <= i < |d.config.calendars| ==> d.config.calendars[i].profile != id)
                 && KeepsWhatRuns(d, next)
              then d.(config := next) else d
  {
    hide Weakens, KeepsWhatRuns, WithoutProfile;
    WeakensExactlyWhen(d, WithoutProfile(d.config, id));
    if i :| 0 <= i < |d.config.weekly| && d.config.weekly[i].profile == id {
      assert d.config.weekly[i] in d.config.weekly;
    }
    if i :| 0 <= i < |d.config.calendars| && d.config.calendars[i].profile == id {
      assert d.config.calendars[i] in d.config.calendars;
    }
  }

  /** Another window of the config is of the same profile, days and minutes, and none has its id. */
  predicate IsDeclined(c: Config, w: WeeklySchedule) {
    && (forall i :: 0 <= i < |c.weekly| ==> c.weekly[i].id != w.id)
    && exists i :: 0 <= i < |c.weekly| && c.weekly[i].(id := "", locks := [], enabled := true) ==
                                           w.(id := "", locks := [], enabled := true)
  }

  lemma DeclinedExactlyWhen(c: Config, w: WeeklySchedule)
    ensures OutcomeOf(c.weekly, w) == AlreadyPresent <==> IsDeclined(c, w)
  {
    if v :| v in c.weekly && Twins(v, w) {
      var i :| 0 <= i < |c.weekly| && c.weekly[i] == v;
    }
    if i :| 0 <= i < |c.weekly| && c.weekly[i].(id := "", locks := [], enabled := true) ==
                                     w.(id := "", locks := [], enabled := true) {
      assert c.weekly[i] in c.weekly && Twins(c.weekly[i], w);
    }
  }

  /** A window is stored exactly when it is not declined and can be used: a name, a profile, minutes, weekdays. */
  lemma UpsertWeeklyFacts(d: DeviceState, w: WeeklySchedule)
    requires Valid(d.config)
    ensures AfterCall(d, UpsertWeekly(w)) ==
              if !IsDeclined(d.config, w) && Says(w.id) && NamesAProfile(d.config, w.profile) && UsableWindow(w)
              then d.(config := WithWeekly(d.config, w)) else d
  {
    hide Valid, WithWeekly, OutcomeOf, IsDeclined, Blank, Says, NamesAProfile, Defines, UsableWindow, ValidWindow;
    DeclinedExactlyWhen(d.config, w);
    WindowIsTakenExactlyWhen(d.config, w);
    BlankExactlyWhen(w.id);
    DefinedExactlyWhen(d.config, w.profile);
    WindowExactlyWhen(w);
  }

  lemma UpsertCalendarFacts(d: DeviceState, s: CalendarSchedule)
    requires Valid(d.config)
    ensures AfterCall(d, UpsertCalendar(s)) ==
              if Says(s.id) && NamesAProfile(d.config, s.profile)
              then d.(config := WithCalendar(d.config, s)) else d
  {
    hide Valid, WithCalendar, Blank, Says, NamesAProfile, Defines;
    CalendarIsTakenExactlyWhen(d.config, s);
    BlankExactlyWhen(s.id);
    DefinedExactlyWhen(d.config, s.profile);
  }

  // ----- Sessions and passes -----

  /** A start runs its profile, under no fewer conditions than it brings, and touches no other. */
  lemma StartFacts(d: DeviceState, s: Session)
    requires Unique(d.store.running)
    ensures var next := AfterCall(d, StartSession(s));
            && next == d.(store := next.store) && next.store.dismissed == d.store.dismissed
            && (forall p :: p != s.profile ==> ForProfile(next.store, p) == ForProfile(d.store, p))
            && Runs(next.store, s.profile)
            && s.lock.conditions <= ForProfile(next.store, s.profile).value.lock.conditions
            && (!Runs(d.store, s.profile) ==> ForProfile(next.store, s.profile) == Some(s))
  {
    F.StartFacts(d.store, s);
  }

  /** A request lands on the session it names, a day on at the latest, and touches no other. */
  lemma AskReleaseFacts(d: DeviceState, id: string, now: Timestamp)
    requires Unique(d.store.running)
    ensures var next := AfterCall(d, AskRelease(id, now));
            && next == d.(store := next.store)
            && (Named(d.store, id).None? ==> next == d)
            && (Named(d.store, id).Some? ==>
                  var p := Named(d.store, id).value.profile;
                  && (forall q :: q != p ==> ForProfile(next.store, q) == ForProfile(d.store, q))
                  && Runs(next.store, p)
                  && var l := ForProfile(next.store, p).value.lock;
                     && l.conditions == Named(d.store, id).value.lock.conditions
                     && l.endsAt == Named(d.store, id).value.lock.endsAt
                     && l.delayedReleaseAt.Some? && l.delayedReleaseAt.value <= now + 86_400)
  {
    RequestFacts(d.store, id, now);
  }

  /** A pass is taken exactly when one is granted, and noted whatever becomes of the session it was for. */
  lemma SpendPassFacts(d: DeviceState, id: string, now: Timestamp)
    requires P.Ascending(d.used) && d.config.emergency.passes <= MAX_U32
    ensures var next, policy := AfterCall(d, SpendPass(id, now)), d.config.emergency;
            var counted := P.Counted(d.used, now, policy);
            if policy.passes > 0 && |counted| < policy.passes
               && forall t :: t in counted ==> t + policy.cooldownSeconds <= now
            then forall t :: t in next.used <==> t == now || t in d.used
            else next == d
  {
    hide P.Check, P.Recorded, P.Counted, EndWithPass;
    P.GrantedExactlyWhen(d.used, now, d.config.emergency);
    P.RecordedFacts(d.used, now);
  }

  /** Restoring passes adds the stored uses to the ones here, and changes nothing else. */
  lemma RestorePassesFacts(d: DeviceState, used: seq<Timestamp>)
    requires P.Ascending(d.used)
    ensures var next := AfterCall(d, RestorePasses(used));
            next == d.(used := next.used) && forall t :: t in next.used <==> t in d.used || t in used
  {
    P.MergedFacts(d.used, used);
  }

  /** Restoring sessions runs what ran and what was stored, but for what an ending held here falls inside. */
  lemma RestoreSessionsFacts(d: DeviceState, stored: Store, p: string)
    requires Unique(d.store.running)
    ensures var next := AfterCall(d, RestoreSessions(stored));
            && next == d.(store := next.store)
            && (Runs(next.store, p) <==>
                  Runs(d.store, p) || exists s :: s in stored.running && E.Revives(d.store, s, p))
  {
    hide Restore;
    E.RestoreRunsExactlyWhen(d.store, stored, p);
  }
}
