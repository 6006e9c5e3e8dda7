/** The client record and the two ways the control plane reads its status. */
module Clients {

  import opened Basics

  datatype Status = ACTIVE | DISABLED | EXPIRED | BLOCKED

  datatype TransportProfile = VLESS_REALITY_TCP | VLESS_WS_TLS

  type ClientId = string

  datatype Client = Client(
    id: ClientId,
    uuid: string,
    emailTag: string,
    subscriptionToken: string,
    displayName: string,
    createdByAdminUserId: Option<string>,
    status: Status,
    createdAt: int,
    startsAt: Option<int>,
    expiresAt: Option<int>,
    durationDays: Option<int>,
    trafficLimitBytes: Option<nat>,
    isTrafficUnlimited: bool,
    deviceLimit: Option<nat>,
    ipLimit: Option<nat>,
    vlessEnabled: bool,
    wireguardEnabled: bool,
    transportProfile: TransportProfile,
    lastActivatedAt: Option<int>,
    lastSeenAt: Option<int>
  )

  /** The quota in force: none for an unlimited client or one without a limit. */
  function Quota(c: Client): Option<nat> {
    if c.isTrafficUnlimited then None else c.trafficLimitBytes
  }

  predicate OverQuota(c: Client, used: nat) {
    Quota(c).Some? && used >= Quota(c).value
  }

  predicate Expired(expiresAt: Option<int>, now: int) {
    expiresAt.Some? && expiresAt.value <= now
  }

  /** The status shown for a client at time `now` when `used` bytes are charged to it. */
  function ResolveEffectiveStatus(c: Client, used: nat, now: int): Status {
    if c.status == DISABLED || c.status == BLOCKED then c.status
    else if Expired(c.expiresAt, now) then EXPIRED
    else if OverQuota(c, used) then BLOCKED
    else ACTIVE
  }

  /** Xray sync and WireGuard rendering do not load usage: they see a client that used nothing. */
  predicate RuntimeActive(c: Client, now: int) {
    ResolveEffectiveStatus(c, 0, now) == ACTIVE
  }

  /** The panel and the subscription endpoint do load it. */
  predicate ShownActive(c: Client, used: nat, now: int) {
    ResolveEffectiveStatus(c, used, now) == ACTIVE
  }

  function RemainingTraffic(c: Client, used: nat): Option<nat> {
    if Quota(c).None? then None
    else if Quota(c).value > used then Some(Quota(c).value - used)
    else Some(0)
  }

  /** The two views differ in exactly one situation: a client over its quota whose row still says it may run. */
  lemma ViewsAgreeExactly(c: Client, used: nat, now: int)
    ensures ShownActive(c, used, now) ==> RuntimeActive(c, now)
    ensures (RuntimeActive(c, now) <==> ShownActive(c, used, now)) <==> !(OverQuota(c, used) && RuntimeActive(c, now))
    ensures OverQuota(c, used) && c.status == BLOCKED ==> !RuntimeActive(c, now)
  {
  }

  /** The status on display, told from the row: a block or a switch-off hides everything else, then the term counts, then the quota;
      a client may run at every time before its term ends and at none from then on. */
  lemma StatusExactly(c: Client, used: nat, now: int)
    ensures ResolveEffectiveStatus(c, used, now) in {DISABLED, BLOCKED} <==>
      || c.status in {DISABLED, BLOCKED}
      || ((c.expiresAt.Some? ==> now < c.expiresAt.value)
          && !c.isTrafficUnlimited && c.trafficLimitBytes.Some? && c.trafficLimitBytes.value <= used)
    ensures ResolveEffectiveStatus(c, used, now) == DISABLED <==> c.status == DISABLED
    ensures ResolveEffectiveStatus(c, used, now) == EXPIRED <==>
      c.status !in {DISABLED, BLOCKED} && c.expiresAt.Some? && c.expiresAt.value <= now
  {
  }

  /** The traffic left on display is zero exactly for the clients that quota enforcement blocks. */
  lemma RemainingIsWhatIsLeft(c: Client, used: nat)
    ensures RemainingTraffic(c, used) == Some(0) <==> OverQuota(c, used)
    ensures RemainingTraffic(c, used).Some? && !OverQuota(c, used) ==> used + RemainingTraffic(c, used).value == Quota(c).value
  {
  }
}
