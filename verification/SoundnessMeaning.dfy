/** What a sound config is, spelled out, and what its soundness is for. */
module SoundnessMeaning {
  import opened Basics
  import opened Text
  import opened TargetMatch
  import opened TargetFacts
  import opened Refills
  import opened Schedules
  import opened ConfigModel
  import opened Engine
  import opened Validation
  import opened DecisionFacts

  // ----- Spelled out -----

  /** Something besides white space. */
  predicate Says(s: string) {
    exists i :: 0 <= i < |s| && !White(s[i])
  }

  lemma BlankExactlyWhen(s: string)
    ensures Blank(s) <==> !Says(s)
  {
    hide Trim, White;
    TrimFacts(s);
    var core := Trim(s);
    var before, after :| s == before + core + after && AllOf(before, White) && AllOf(after, White);
    if core != "" {
      assert s[|before|] == core[0];
    } else {
      forall i | 0 <= i < |s| ensures White(s[i]) {
        assert s[i] == if i < |before| then before[i] else after[i - |before|];
      }
    }
  }

  predicate UsableAction(a: Action) {
    match a
    case Budget(seconds, Rolling(window)) => seconds >= 1 && window >= 1
    case Budget(seconds, _) => seconds >= 1
    case LaunchLimit(count, _) => count >= 1
    case _ => true
  }

  /** Both minutes are minutes of a day and not the same, and every weekday is one of the seven. */
  predicate UsableWindow(w: WeeklySchedule) {
    && w.startMinute / 60 < 24 && w.endMinute / 60 < 24 && (w.startMinute < w.endMinute || w.endMinute < w.startMinute)
    && forall i :: 0 <= i < |w.days| ==> w.days[i] < 7
  }

  predicate NamesAProfile(c: Config, id: string) {
    exists k :: 0 <= k < |c.profiles| && c.profiles[k].id == id
  }

  predicate UsableProfile(p: Profile) {
    Says(p.id) && Says(p.name) && forall j :: 0 <= j < |p.rules| ==> UsableAction(p.rules[j].action)
  }

  /** Nothing blank, nothing twice, nothing that could not be used, nothing about a profile that is not there. */
  predicate IsSound(c: Config) {
    && (forall i :: 0 <= i < |c.profiles| ==> UsableProfile(c.profiles[i]))
    && (forall i :: 0 <= i < |c.weekly| ==>
          Says(c.weekly[i].id) && NamesAProfile(c, c.weekly[i].profile) && UsableWindow(c.weekly[i]))
    && (forall i :: 0 <= i < |c.calendars| ==> Says(c.calendars[i].id) && NamesAProfile(c, c.calendars[i].profile))
    && (forall i, j :: 0 <= i < |c.profiles| && 0 <= j < |c.profiles| && c.profiles[i].id == c.profiles[j].id ==>
          i == j)
    && (forall i, j :: 0 <= i < |c.weekly| && 0 <= j < |c.weekly| && c.weekly[i].id == c.weekly[j].id ==> i == j)
    && (forall i, j :: 0 <= i < |c.calendars| && 0 <= j < |c.calendars| && c.calendars[i].id == c.calendars[j].id ==>
          i == j)
    && c.emergency.windowSeconds >= 1 && (c.emergency.passes >= 1 ==> c.emergency.cooldownSeconds >= 1)
  }

  lemma ActionExactlyWhen(a: Action)
    ensures SoundAction(a) <==> UsableAction(a)
  {
  }

  lemma WindowExactlyWhen(w: WeeklySchedule)
    ensures ValidWindow(w) <==> UsableWindow(w)
  {
    if UsableWindow(w) {
      forall d | d in w.days ensures d <= 6 {
        var i :| 0 <= i < |w.days| && w.days[i] == d;
      }
    }
    if ValidWindow(w) {
      forall i | 0 <= i < |w.days| ensures w.days[i] < 7 {
        assert w.days[i] in w.days;
      }
    }
  }

  lemma ProfileExactlyWhen(p: Profile)
    ensures SoundProfile(p) <==> UsableProfile(p)
  {
    hide Blank, Says, SoundAction, UsableAction;
    BlankExactlyWhen(p.id);
    BlankExactlyWhen(p.name);
    forall a ensures SoundAction(a) <==> UsableAction(a) {
      ActionExactlyWhen(a);
    }
    if UsableProfile(p) {
      forall r | r in p.rules ensures SoundAction(r.action) {
        var j :| 0 <= j < |p.rules| && p.rules[j] == r;
      }
    }
    if SoundProfile(p) {
      forall j | 0 <= j < |p.rules| ensures UsableAction(p.rules[j].action) {
        assert p.rules[j] in p.rules;
      }
    }
  }

  lemma DefinedExactlyWhen(c: Config, id: string)
    ensures Defines(c.profiles, id) <==> NamesAProfile(c, id)
  {
    if Defines(c.profiles, id) {
      var p :| p in c.profiles && p.id == id;
      var k :| 0 <= k < |c.profiles| && c.profiles[k] == p;
    }
  }

  lemma PartsExactlyWhen(c: Config)
    ensures (forall p :: p in c.profiles ==> SoundProfile(p)) <==>
              forall i :: 0 <= i < |c.profiles| ==> UsableProfile(c.profiles[i])
    ensures (forall w :: w in c.weekly ==> SoundWeekly(c.profiles, w)) <==>
              forall i :: 0 <= i < |c.weekly| ==>
                Says(c.weekly[i].id) && NamesAProfile(c, c.weekly[i].profile) && UsableWindow(c.weekly[i])
    ensures (forall s :: s in c.calendars ==> SoundCalendar(c.profiles, s)) <==>
              forall i :: 0 <= i < |c.calendars| ==>
                Says(c.calendars[i].id) && NamesAProfile(c, c.calendars[i].profile)
  {
    hide Blank, Says, ValidWindow, UsableWindow, SoundProfile, UsableProfile, Defines, NamesAProfile;
    forall p ensures SoundProfile(p) <==> UsableProfile(p) {
      ProfileExactlyWhen(p);
    }
    forall w: WeeklySchedule
      ensures SoundWeekly(c.profiles, w) <==> Says(w.id) && NamesAProfile(c, w.profile) && UsableWindow(w)
    {
      BlankExactlyWhen(w.id);
      DefinedExactlyWhen(c, w.profile);
      WindowExactlyWhen(w);
    }
    forall s: CalendarSchedule ensures SoundCalendar(c.profiles, s) <==> Says(s.id) && NamesAProfile(c, s.profile) {
      BlankExactlyWhen(s.id);
      DefinedExactlyWhen(c, s.profile);
    }
    hide SoundWeekly, SoundCalendar;
    assert forall i :: 0 <= i < |c.profiles| ==> c.profiles[i] in c.profiles;
    assert forall i :: 0 <= i < |c.weekly| ==> c.weekly[i] in c.weekly;
    assert forall i :: 0 <= i < |c.calendars| ==> c.calendars[i] in c.calendars;
  }

  /** Validation passes exactly the sound configs. */
  lemma ValidExactlyWhen(c: Config)
    ensures Valid(c) <==> IsSound(c)
  {
    hide SoundProfile, SoundWeekly, SoundCalendar, UsableProfile, UsableWindow, Says, NamesAProfile;
    PartsExactlyWhen(c);
  }

  // ----- What it is for -----

  /** Under a sound config nothing is spent before anything is used. */
  lemma NothingUsedNothingSpent(now: Timestamp, s: State, obs: Observation, c: Config)
    requires Valid(c) && s.usage == map[] && s.launches == map[]
    ensures ClassOf(Decide(now, s, obs, c)) !in {BudgetC, LaunchC}
  {
    hide Decide, Valid, ClassOf, Speaks, TargetMatches, Key;
    DecidedByWhatIsWritten(now, s, obs, c);
    forall p, r | Speaks(p, r, s, c)
      ensures !Answers(SpendsBudget, r, Moment(now, s, obs, c.offset))
      ensures !Answers(SpendsLaunches, r, Moment(now, s, obs, c.offset))
    {
      SpeakerIsSound(p, r, s, c);
    }
    hide LongestAsked, Answers;
  }

  lemma SpeakerIsSound(p: string, r: Rule, s: State, c: Config)
    requires Valid(c) && Speaks(p, r, s, c)
    ensures SoundAction(r.action)
  {
    hide SoundAction;
    assert SoundProfile(FindProfile(c, p).value);
  }

  /** A zero limit is spent by nothing at all, which is why it is refused: it would be a block. */
  lemma ZeroLimitIsABlock(r: Rule, m: Moment)
    requires TargetMatches(r.target, m.obs) && m.state.usage == map[] && m.state.launches == map[]
    ensures Answers(SpendsBudget, r, m) || Answers(SpendsLaunches, r, m) <==> !NotZero(r.action)
  {
    hide TargetMatches, Key;
  }
}
