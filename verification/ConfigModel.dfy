/** The parsed configuration document: profiles, their rules, and the schedules that run them. */
module ConfigModel {
  import opened Basics
  import opened TargetMatch
  import opened Refills
  import opened Schedules
  import opened PassRation

  datatype Platform = Android | Windows | Browser

  datatype Action =
    | Block
    | AllowOnly
    | Budget(seconds: nat, refill: Refill)
    | LaunchLimit(count: nat, refill: Refill)
    | Delay(seconds: nat)
    | MuteNotifications

  datatype Rule = Rule(target: Target, action: Action, platforms: seq<Platform>)

  datatype Profile = Profile(id: string, name: string, description: string, rules: seq<Rule>)

  /** `offset` stands for the configured zone. */
  datatype Config = Config(
    offset: int, profiles: seq<Profile>, weekly: seq<WeeklySchedule>, calendars: seq<CalendarSchedule>,
    emergency: Policy)

  const DEFAULT: Config := Config(0, [], [], [], Policy(0, 7 * 24 * 3600, 24 * 3600))

  /** The position of the first profile called `id`, or the length when there is none. */
  function ProfileAt(profiles: seq<Profile>, id: string): (i: nat)
    ensures i <= |profiles|
    ensures i < |profiles| ==> profiles[i].id == id
    ensures forall j :: 0 <= j < i ==> profiles[j].id != id
  {
    FirstWhere(profiles, (p: Profile) => p.id == id)
  }

  function FindProfile(c: Config, id: string): (p: Option<Profile>)
    ensures p.Some? ==> p.value.id == id && p.value in c.profiles
    ensures p.None? ==> forall q :: q in c.profiles ==> q.id != id
  {
    var i := ProfileAt(c.profiles, id);
    if i < |c.profiles| then Some(c.profiles[i]) else None
  }

  /** The first rule with this target key and these platforms: a rule's identity for every edit. */
  function RuleAt(rules: seq<Rule>, key: string, platforms: seq<Platform>): (i: nat)
    ensures i <= |rules|
    ensures i < |rules| ==> Key(rules[i].target) == key && rules[i].platforms == platforms
    ensures forall j :: 0 <= j < i ==> !(Key(rules[j].target) == key && rules[j].platforms == platforms)
  {
    if rules == [] || (Key(rules[0].target) == key && rules[0].platforms == platforms) then 0
    else 1 + RuleAt(rules[1..], key, platforms)
  }

  predicate AppliesTo(r: Rule, platform: Platform) {
    r.platforms == [] || platform in r.platforms
  }
}
