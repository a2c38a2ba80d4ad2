/** The eligibility chain of the advanced-subscription plugin
    (`isAllowedToDoRequest`) and the request entry point that runs it and
    queues the user (`startSubscription`). Plugin settings, the web-service
    answer and the sessions the user already takes this credit year are
    inputs; percentages, costs and hours are whole numbers. */
module SubscriptionRules {
  import opened Php
  import opened SubscriptionQueue

  /** The plugin settings the chain reads. */
  datatype Settings = Settings(
    wsUrl: string,
    minProfilePercentage: int,
    yearlyCostUnitConverter: int,
    yearlyCostLimit: int,
    yearlyHoursLimit: int,
    coursesCountLimit: int,
    checkInduction: bool)

  /** A session the user joined since the start of the credit year, with its
      `cost` and `teaching_hours` extra fields. */
  datatype SessionLoad = SessionLoad(cost: int, teachingHours: int)

  /** The exceptions of the chain, named after their language keys. */
  datatype Rejection =
    | NotConnected
    | ProfileIncomplete
    | IncompleteInduction
    | CostLimitReached
    | TimeLimitReached
    | CourseLimitReached
    | NotMoreAble

  function LangKey(r: Rejection): string {
    match r
    case NotConnected => "AdvancedSubscriptionNotConnected"
    case ProfileIncomplete => "AdvancedSubscriptionProfileIncomplete"
    case IncompleteInduction => "AdvancedSubscriptionIncompleteInduction"
    case CostLimitReached => "AdvancedSubscriptionCostXLimitReached"
    case TimeLimitReached => "AdvancedSubscriptionTimeXLimitReached"
    case CourseLimitReached => "AdvancedSubscriptionCourseXLimitReached"
    case NotMoreAble => "AdvancedSubscriptionNotMoreAble"
  }

  /** A value returned, or an exception thrown. */
  datatype Outcome<T> = Returned(value: T) | Thrown(reason: Rejection)

  function CostSum(sessions: seq<SessionLoad>): int {
    if |sessions| == 0 then 0 else sessions[0].cost + CostSum(sessions[1..])
  }

  function HoursSum(sessions: seq<SessionLoad>): int {
    if |sessions| == 0 then 0 else sessions[0].teachingHours + HoursSum(sessions[1..])
  }

  /** The profile completion the chain compares: the web service's answer
      when a service URL is configured (0 when the call fails, `None`),
      otherwise the `profile_completed` request parameter, otherwise 0. */
  function ProfileCompleted(s: Settings, wsAnswer: Option<int>, params: map<string, string>): (r: int)
    ensures !EmptyString(s.wsUrl) && wsAnswer.Some? ==> r == wsAnswer.value
    ensures !EmptyString(s.wsUrl) && wsAnswer.None? ==> r == 0
    ensures EmptyString(s.wsUrl) && "profile_completed" in params ==> r == IntVal(params["profile_completed"])
    ensures EmptyString(s.wsUrl) && "profile_completed" !in params ==> r == 0
  {
    if !EmptyString(s.wsUrl) then (if wsAnswer.Some? then wsAnswer.value else 0)
    else if "profile_completed" in params then IntVal(params["profile_completed"])
    else 0
  }

  /** Exactly one source decides the profile completion: with a service URL
      the request parameter is ignored, and without one the service answer
      is. */
  lemma ProfileSource(s: Settings, ws1: Option<int>, ws2: Option<int>,
                      p1: map<string, string>, p2: map<string, string>)
    ensures !EmptyString(s.wsUrl) && ws1 == ws2 ==> ProfileCompleted(s, ws1, p1) == ProfileCompleted(s, ws2, p2)
    ensures EmptyString(s.wsUrl) && p1 == p2 ==> ProfileCompleted(s, ws1, p1) == ProfileCompleted(s, ws2, p2)
  {
  }

  /** The four limits, each inclusive. */
  predicate ProfileOk(s: Settings, profile: int) {
    profile >= s.minProfilePercentage
  }
  predicate CostOk(s: Settings, sessions: seq<SessionLoad>) {
    s.yearlyCostUnitConverter * s.yearlyCostLimit >= CostSum(sessions)
  }
  predicate HoursOk(s: Settings, sessions: seq<SessionLoad>) {
    s.yearlyHoursLimit >= HoursSum(sessions)
  }
  predicate CountOk(s: Settings, sessions: seq<SessionLoad>) {
    s.coursesCountLimit >= |sessions|
  }

  /** `isAllowedToDoRequest`: returns true or throws the exception of the
      first check that fails, in the order profile, cost, hours, count. */
  function IsAllowedToDoRequest(s: Settings, wsAnswer: Option<int>, params: map<string, string>,
                                sessions: seq<SessionLoad>): (r: Outcome<bool>)
    ensures r != Returned(false)
    ensures var p := ProfileCompleted(s, wsAnswer, params);
            && (r == Returned(true) <==> ProfileOk(s, p) && CostOk(s, sessions) && HoursOk(s, sessions) && CountOk(s, sessions))
            && (r == Thrown(ProfileIncomplete) <==> !ProfileOk(s, p))
            && (r == Thrown(CostLimitReached) <==> ProfileOk(s, p) && !CostOk(s, sessions))
            && (r == Thrown(TimeLimitReached) <==> ProfileOk(s, p) && CostOk(s, sessions) && !HoursOk(s, sessions))
            && (r == Thrown(CourseLimitReached) <==>
                  ProfileOk(s, p) && CostOk(s, sessions) && HoursOk(s, sessions) && !CountOk(s, sessions))
  {
    // Both flags are fixed in the source: the student is always connected
    // and the induction check is not implemented.
    var isConnected := true;
    if isConnected then
      var profileCompleted := ProfileCompleted(s, wsAnswer, params);
      if profileCompleted >= s.minProfilePercentage then
        var completedInduction := true;
        if !s.checkInduction || completedInduction then
          var uitMax := s.yearlyCostUnitConverter * s.yearlyCostLimit;
          if uitMax >= CostSum(sessions) then
            if s.yearlyHoursLimit >= HoursSum(sessions) then
              if s.coursesCountLimit >= |sessions| then Returned(true)
              else Thrown(CourseLimitReached)
            else Thrown(TimeLimitReached)
          else Thrown(CostLimitReached)
        else Thrown(IncompleteInduction)
      else Thrown(ProfileIncomplete)
    else Thrown(NotConnected)
  }

  /** The "not connected" and "incomplete induction" exceptions can never be
      thrown, and the induction setting makes no difference. */
  lemma DeadRejections(s: Settings, wsAnswer: Option<int>, params: map<string, string>, sessions: seq<SessionLoad>)
    ensures IsAllowedToDoRequest(s, wsAnswer, params, sessions) != Thrown(NotConnected)
    ensures IsAllowedToDoRequest(s, wsAnswer, params, sessions) != Thrown(IncompleteInduction)
    ensures IsAllowedToDoRequest(s, wsAnswer, params, sessions)
         == IsAllowedToDoRequest(s.(checkInduction := !s.checkInduction), wsAnswer, params, sessions)
  {
  }

  /** The outcome of `startSubscription`: a message string or a boolean. */
  datatype StartResult = Text(message: string) | Flag(ok: bool)

  const ParamsNotFound: string := "Params not found"

  /** `startSubscription`: with both ids present, run the chain and queue the
      user when it allows; a rejection becomes its message and leaves the
      queue alone. */
  function StartSubscription(q: Queue, s: Settings, userId: int, sessionId: int, wsAnswer: Option<int>,
                             params: map<string, string>, sessions: seq<SessionLoad>, now: int): (r: (Queue, StartResult))
    ensures userId == 0 || sessionId == 0 ==> r == (q, Text(ParamsNotFound))
    ensures r.1.Text? ==> r.0 == q
    ensures userId != 0 && sessionId != 0 && IsAllowedToDoRequest(s, wsAnswer, params, sessions).Thrown? ==>
              r.1 == Text(LangKey(IsAllowedToDoRequest(s, wsAnswer, params, sessions).reason))
    ensures r.1.Flag? ==> IsAllowedToDoRequest(s, wsAnswer, params, sessions) == Returned(true)
    ensures r.1 == Flag(true) ==> (userId, sessionId) !in q.rows && r.0.rows.Keys == q.rows.Keys + {(userId, sessionId)}
                                  && r.0.rows[(userId, sessionId)].status == Start
                                  && r.0.rows[(userId, sessionId)].updatedAt.None?
  {
    if sessionId == 0 || userId == 0 then (q, Text(ParamsNotFound))
    else
      match IsAllowedToDoRequest(s, wsAnswer, params, sessions)
      case Thrown(reason) => (q, Text(LangKey(reason)))
      case Returned(allowed) =>
        if allowed then
          var (q', id) := AddToQueue(q, userId, sessionId, now);
          (q', Flag(id.Some? && id.value != 0))
        else (q, Text(LangKey(NotMoreAble)))
  }

  /** What a caller of `startSubscription` sees, case by case. */
  lemma StartSubscriptionOutcomes(q: Queue, s: Settings, userId: int, sessionId: int, wsAnswer: Option<int>,
                                  params: map<string, string>, sessions: seq<SessionLoad>, now: int)
    requires q.Valid()
    requires userId != 0 && sessionId != 0
    ensures var r := StartSubscription(q, s, userId, sessionId, wsAnswer, params, sessions, now);
            var verdict := IsAllowedToDoRequest(s, wsAnswer, params, sessions);
            && (verdict.Thrown? ==> r == (q, Text(LangKey(verdict.reason))))
            && (verdict.Returned? && (userId, sessionId) in q.rows ==> r == (q, Flag(false)))
            && (verdict.Returned? && (userId, sessionId) !in q.rows ==>
                  r.1 == Flag(true) && r.0.Valid() && GetQueueStatus(r.0, userId, sessionId) == Some(Start))
  {
    AddToQueueValid(q, userId, sessionId, now);
  }
}
