/**
 * How `/trade post` turns the user's option values into the parameters of
 * the INSERT statement.
 */
module Posting {
  import opened Basics
  import opened Text
  import opened Trades

  const MsPerHour: int := 3600 * 1000

  /** The options of `/trade post` as the chat platform delivers them. */
  datatype PostArgs = PostArgs(
    have: string,
    want: string,
    price: Option<string>,
    platform: Option<string>,
    notes: Option<string>,
    expiresHours: Option<int>)

  /** `getString(name)?.trim() || null`: a missing option, or one that is only
      white space, is stored as NULL; anything else is stored trimmed. */
  function OptionalText(o: Option<string>): (r: Option<string>)
    ensures r.None? <==> o.None? || forall i :: 0 <= i < |o.value| ==> IsJsSpace(o.value[i])
    ensures r.Some? ==> r.value == Trim(o.value) && r.value != []
  {
    match o
    case None => None
    case Some(s) =>
      TrimEmptyIff(s);
      var t := Trim(s);
      if t == [] then None else Some(t)
  }

  /** `expiresHours ? createdAt + expiresHours * 3600 * 1000 : null`: an
      absent or zero hour count means the listing never expires. */
  function ExpiresAt(createdAt: int, hours: Option<int>): (r: Option<int>)
    ensures r.None? <==> hours.None? || hours.value == 0
    ensures r.Some? ==> r.value - createdAt == hours.value * MsPerHour
    ensures r.Some? ==> (r.value > createdAt <==> hours.value > 0)
  {
    match hours
    case None => None
    case Some(h) => if h == 0 then None else Some(createdAt + h * MsPerHour)
  }

  /** The values `handlePost` binds to the INSERT: no message id yet, the
      invoking channel, trimmed texts, and the computed expiry. */
  function PostRow(userId: string, channelId: string, args: PostArgs, createdAt: int): (v: NewRow)
    ensures v.messageId.None? && v.channelId == Some(channelId) && v.userId == userId
    ensures v.have == Trim(args.have) && v.want == Trim(args.want)
    ensures v.price == OptionalText(args.price) && v.platform == OptionalText(args.platform)
    ensures v.notes == OptionalText(args.notes)
    ensures v.createdAt == createdAt && v.expiresAt == ExpiresAt(createdAt, args.expiresHours)
  {
    NewRow(userId, None, Some(channelId), Trim(args.have), Trim(args.want),
           OptionalText(args.price), OptionalText(args.platform), OptionalText(args.notes),
           createdAt, ExpiresAt(createdAt, args.expiresHours))
  }

  /** When an active listing posted at `createdAt` becomes due for the sweep:
      never without a (non-zero) hour count, otherwise once the clock is past
      the expiry. A negative hour count gives a listing that is already due. */
  lemma ExpiryOfPostedRow(t: Trade, createdAt: int, hours: Option<int>, now: int)
    requires t.status == Active && t.expiresAt == ExpiresAt(createdAt, hours)
    ensures Expirable(t, now) <==> hours.Some? && hours.value != 0 && createdAt + hours.value * MsPerHour < now
    ensures hours.Some? && hours.value < 0 && now >= createdAt ==> Expirable(t, now)
  {
    if hours.Some? && hours.value < 0 {
      assert hours.value * MsPerHour < 0;
    }
  }
}
