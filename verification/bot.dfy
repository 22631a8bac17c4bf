/**
 * The interaction handler: the `/trade` subcommands and the listing buttons,
 * as functions from the table and the cooldown map to the new table, the new
 * map and the kind of reply. Rendering, DMs and the platform calls are not
 * modelled; what the platform hands in (who acted, whether they hold the
 * Manage Messages permission, the clock, the posted card's ids, or that
 * sending the card failed) is a parameter.
 */
module Bot {
  import opened Basics
  import opened Text
  import opened SqlLike
  import opened Trades
  import opened Store
  import opened Query
  import opened Cooldown
  import opened Posting
  import CustomId

  /** Rows `/trade list` shows at most. */
  const ListLimit: nat := 20

  /** Who pressed or typed: the user id and whether the member holds the
      Manage Messages permission (false outside a server). */
  datatype Actor = Actor(userId: string, isMod: bool)

  /** The one permission rule, used by both buttons and `/trade close`: the
      listing's owner or a moderator may change its status. */
  predicate MayChangeStatus(actor: Actor, trade: Trade)
  {
    actor.userId == trade.userId || actor.isMod
  }

  datatype Command =
    | Post(args: PostArgs)
    | Search(q: string)
    | List(user: Option<string>)
    | Close(id: int)
    | Help

  /** The message the platform returns for the posted card. */
  datatype MessageRef = MessageRef(messageId: string, channelId: string)

  datatype Reply =
    | SlowDown
    | HelpText
    | Posted(id: int)
    | SearchResults(rows: seq<Trade>)
    | ListResults(mine: bool, rows: seq<Trade>)
    | NotFound
    | NotAllowed
    | ClosedTrade(id: int)
    | ContactSeller(trade: Trade)
    | MarkedTraded(id: int)
    | ClosedByButton(id: int)
    /** Nothing is sent: a button with an unknown action, or a post whose
        card could not be sent. */
    | NoReply

  datatype Outcome = Outcome(table: Table, reply: Reply)

  /** `handlePost`: insert the normalised row, reply with the card, then
      record the card's ids. `card` is the message the platform returns, or
      `None` when sending the card fails: the handler then stops before
      `attachMessage` and the inserted row stays active with no message id and
      the invoking channel. The dispatcher returns the handler's promise
      without awaiting it, so its catch never sees the failure and no reply
      is sent. */
  function HandlePost(t: Table, actor: Actor, channelId: string, args: PostArgs, now: int,
                      card: Option<MessageRef>): (r: Outcome)
    requires Valid(t)
    ensures Valid(r.table)
    ensures var id := t.lastId + 1;
            && r.reply == (if card.Some? then Posted(id) else NoReply)
            && id !in t.rows && (forall k | k in t.rows :: k < id)
            && r.table.rows.Keys == t.rows.Keys + {id}
            && (forall k | k in t.rows :: r.table.rows[k] == t.rows[k])
    ensures var row := r.table.rows[t.lastId + 1];
            && row.status == Active && row.userId == actor.userId
            && row.have == Trim(args.have) && row.want == Trim(args.want)
            && row.price == OptionalText(args.price) && row.platform == OptionalText(args.platform)
            && row.notes == OptionalText(args.notes)
            && row.createdAt == now && row.expiresAt == ExpiresAt(now, args.expiresHours)
            && (card.Some? ==> row.messageId == Some(card.value.messageId)
                               && row.channelId == Some(card.value.channelId))
            && (card.None? ==> row.messageId.None? && row.channelId == Some(channelId))
  {
    var ins := InsertTrade(t, PostRow(actor.userId, channelId, args, now));
    match card
    case None => Outcome(ins.table, NoReply)
    case Some(msg) => Outcome(AttachMessage(ins.table, msg.messageId, msg.channelId, ins.id), Posted(ins.id))
  }

  /** The keyword as `handleSearch` prepares it: lower-cased, then trimmed. */
  function SearchKeyword(raw: string): (q: string)
  {
    Trim(Lower(raw))
  }

  /** The listing holds the prepared keyword in its lower-cased have or want. */
  predicate HasKeyword(x: Trade, q: string)
  {
    Contains(Lower(x.have), q) || Contains(Lower(x.want), q)
  }

  /** `handleSearch`: sweep, then look the keyword up in have/want. The
      reply holds the newest 20 active listings of the swept table whose
      have or want matches `%keyword%`; without wildcards in the keyword
      that is the listings containing it. */
  function HandleSearch(t: Table, raw: string, now: int): (r: Outcome)
    requires Valid(t)
    ensures Valid(r.table) && r.reply.SearchResults?
    ensures r.table == PurgeExpired(t, now)
    ensures forall k | k in r.table.rows :: !Expirable(r.table.rows[k], now)
    ensures |r.reply.rows| <= SearchLimit && NewestFirst(r.reply.rows)
    ensures forall x | x in r.reply.rows ::
              && x.id in r.table.rows && r.table.rows[x.id] == x
              && x.status == Active && !Expirable(x, now)
              && SearchMatch(x, "%" + SearchKeyword(raw) + "%")
              && (NoWildcards(SearchKeyword(raw)) ==> HasKeyword(x, SearchKeyword(raw)))
    ensures forall k | k in r.table.rows && r.table.rows[k].status == Active
                       && SearchMatch(r.table.rows[k], "%" + SearchKeyword(raw) + "%")
                       && r.table.rows[k] !in r.reply.rows ::
              |r.reply.rows| == SearchLimit && OlderThanAll(r.table.rows[k], r.reply.rows)
    ensures NoWildcards(SearchKeyword(raw)) ==>
              forall k | k in r.table.rows && r.table.rows[k].status == Active
                         && HasKeyword(r.table.rows[k], SearchKeyword(raw))
                         && r.table.rows[k] !in r.reply.rows ::
                |r.reply.rows| == SearchLimit && OlderThanAll(r.table.rows[k], r.reply.rows)
  {
    var q := SearchKeyword(raw);
    var swept := PurgeExpired(t, now);
    var rows := SimpleSearch(swept, "%" + q + "%");
    assert NoWildcards(q) ==> forall x: Trade :: SearchMatch(x, "%" + q + "%") <==> HasKeyword(x, q) by {
      if NoWildcards(q) {
        forall x: Trade
          ensures SearchMatch(x, "%" + q + "%") <==> HasKeyword(x, q)
        {
          SearchMatchIsContainment(x, q);
          KeywordIsLowerCase(raw);
        }
      }
    }
    Outcome(swept, SearchResults(rows))
  }

  /** The prepared keyword has no ASCII capitals left. */
  lemma KeywordIsLowerCase(raw: string)
    ensures Lower(SearchKeyword(raw)) == SearchKeyword(raw)
  {
    LowerIdempotent(raw);
    TrimKeepsLowerCase(Lower(raw));
  }

  /** `handleList`: sweep, then the actor's own active listings, or, when
      another user is selected, the latest active listings of everyone. */
  function HandleList(t: Table, actor: Actor, selected: Option<string>, now: int): (r: Outcome)
    requires Valid(t)
    ensures Valid(r.table) && r.reply.ListResults?
    ensures r.table == PurgeExpired(t, now)
    ensures forall k | k in r.table.rows :: !Expirable(r.table.rows[k], now)
    ensures r.reply.mine <==> selected.None? || selected.value == actor.userId
    ensures |r.reply.rows| <= ListLimit && NewestFirst(r.reply.rows)
    ensures forall x | x in r.reply.rows ::
              x.id in r.table.rows && r.table.rows[x.id] == x && x.status == Active && !Expirable(x, now)
    ensures r.reply.mine ==> forall x | x in r.reply.rows :: x.userId == actor.userId
    // own listings: a listing of the actor's left out is older than all shown
    ensures r.reply.mine ==>
              forall k | k in r.table.rows && r.table.rows[k].userId == actor.userId
                         && r.table.rows[k].status == Active && r.table.rows[k] !in r.reply.rows ::
                |r.reply.rows| == ListLimit && OlderThanAll(r.table.rows[k], r.reply.rows)
    // another user selected: the newest active listings of everyone
    ensures !r.reply.mine ==>
              forall k | k in r.table.rows && r.table.rows[k].status == Active && r.table.rows[k] !in r.reply.rows ::
                |r.reply.rows| == ListLimit && OlderThanAll(r.table.rows[k], r.reply.rows)
  {
    var swept := PurgeExpired(t, now);
    var user := match selected case Some(u) => u case None => actor.userId;
    var mine := user == actor.userId;
    var rows := if mine then ListByUser(swept, actor.userId, ListLimit) else ListActive(swept, ListLimit, 0);
    Outcome(swept, ListResults(mine, rows))
  }

  /** As written, selecting another user does not narrow the list: whoever is
      selected, the reply is the same latest-active page. */
  lemma ListIgnoresOtherUser(t: Table, actor: Actor, u1: string, u2: string, now: int)
    requires Valid(t) && u1 != actor.userId && u2 != actor.userId
    ensures HandleList(t, actor, Some(u1), now) == HandleList(t, actor, Some(u2), now)
    ensures HandleList(t, actor, Some(u1), now).reply.rows == ListActive(PurgeExpired(t, now), ListLimit, 0)
  {
  }

  /** `handleClose`: look the id up, check the permission, mark it closed.
      The row's current status is not consulted. */
  function HandleClose(t: Table, actor: Actor, id: int): (r: Outcome)
    requires Valid(t)
    ensures Valid(r.table)
    ensures r.reply == NotFound <==> id !in t.rows
    ensures r.reply == ClosedTrade(id) <==> id in t.rows && MayChangeStatus(actor, t.rows[id])
    ensures r.reply == NotFound || r.reply == NotAllowed || r.reply == ClosedTrade(id)
    ensures r.reply != ClosedTrade(id) ==> r.table == t
    ensures r.reply == ClosedTrade(id) ==>
              && r.table.rows.Keys == t.rows.Keys
              && r.table.rows[id] == t.rows[id].(status := Closed)
              && forall k | k in t.rows && k != id :: r.table.rows[k] == t.rows[k]
  {
    match FindById(t, id)
    case None => Outcome(t, NotFound)
    case Some(trade) =>
      if !MayChangeStatus(actor, trade) then Outcome(t, NotAllowed)
      else Outcome(MarkStatus(t, Closed, id), ClosedTrade(id))
  }

  /** The subcommands that post or change a listing go through the limiter. */
  predicate Throttled(cmd: Command)
  {
    cmd.Post? || cmd.Close?
  }

  datatype State = State(table: Table, lastUse: map<string, int>)

  datatype Step = Step(state: State, reply: Reply)

  /** One `/trade` slash command. `now` stands for every `Date.now()` of the
      handler; `card` is the message the platform returns for a posted card,
      `None` when sending it fails. */
  function HandleCommand(s: State, actor: Actor, channelId: string, now: int, windowMs: int,
                         cmd: Command, card: Option<MessageRef>): (r: Step)
    requires Valid(s.table)
    ensures Valid(r.state.table)
    ensures cmd.Help? ==> r == Step(s, HelpText)
    ensures !Throttled(cmd) ==> r.state.lastUse == s.lastUse && r.reply != SlowDown
    ensures Throttled(cmd) ==>
              (r.reply == SlowDown <==> now - LastUse(s.lastUse, actor.userId) < windowMs)
    ensures r.reply == SlowDown ==> r.state == s
    ensures Throttled(cmd) && r.reply != SlowDown ==>
              r.state.lastUse == s.lastUse[actor.userId := now]
    // a command let through runs its subcommand's handler on the table
    ensures cmd.Post? && r.reply != SlowDown ==>
              Outcome(r.state.table, r.reply) == HandlePost(s.table, actor, channelId, cmd.args, now, card)
    ensures cmd.Search? ==> Outcome(r.state.table, r.reply) == HandleSearch(s.table, cmd.q, now)
    ensures cmd.List? ==> Outcome(r.state.table, r.reply) == HandleList(s.table, actor, cmd.user, now)
    ensures cmd.Close? && r.reply != SlowDown ==>
              Outcome(r.state.table, r.reply) == HandleClose(s.table, actor, cmd.id)
  {
    if cmd.Help? then Step(s, HelpText)
    else
      var verdict := if Throttled(cmd) then OnCooldown(s.lastUse, actor.userId, now, windowMs)
                     else Verdict(false, s.lastUse);
      if verdict.blocked then Step(s, SlowDown)
      else
        var out := match cmd
          case Post(args) => HandlePost(s.table, actor, channelId, args, now, card)
          case Search(q) => HandleSearch(s.table, q, now)
          case List(user) => HandleList(s.table, actor, user, now)
          case Close(id) => HandleClose(s.table, actor, id);
        Step(State(out.table, verdict.lastUse), out.reply)
  }

  /** A button press: `customId.split(':')`, `Number(idStr)`, `findById`, then
      the action. Buttons bypass the limiter. */
  function HandleButton(t: Table, actor: Actor, customId: string): (r: Outcome)
    requires Valid(t)
    ensures Valid(r.table)
    ensures var target := CustomId.Parse(customId);
            r.reply == NotFound <==> target.id.None? || target.id.value !in t.rows
  {
    var target := CustomId.Parse(customId);
    match target.id
    case None => Outcome(t, NotFound)
    case Some(id) =>
      match FindById(t, id)
      case None => Outcome(t, NotFound)
      case Some(trade) =>
        if target.action == "contact" then Outcome(t, ContactSeller(trade))
        else if target.action == "marktraded" then
          if !MayChangeStatus(actor, trade) then Outcome(t, NotAllowed)
          else Outcome(MarkStatus(t, Traded, id), MarkedTraded(id))
        else if target.action == "close" then
          if !MayChangeStatus(actor, trade) then Outcome(t, NotAllowed)
          else Outcome(MarkStatus(t, Closed, id), ClosedByButton(id))
        else Outcome(t, NoReply)
  }

  /** The status a button action sets, if it sets one. */
  function ButtonStatus(action: string): (s: Option<Status>)
  {
    if action == "marktraded" then Some(Traded)
    else if action == "close" then Some(Closed)
    else None
  }

  /** A button changes the table exactly when it is a status button, its id
      names an existing listing, and the presser may change that listing; the
      change sets that listing's status and nothing else. */
  lemma ButtonChangesStatusIff(t: Table, actor: Actor, customId: string)
    requires Valid(t)
    ensures var target := CustomId.Parse(customId);
            var r := HandleButton(t, actor, customId);
            var performs := target.id.Some? && target.id.value in t.rows
                            && ButtonStatus(target.action).Some?
                            && MayChangeStatus(actor, t.rows[target.id.value]);
            && (!performs ==> r.table == t)
            && (performs ==>
                  && r.table.rows.Keys == t.rows.Keys
                  && r.table.rows[target.id.value] == t.rows[target.id.value].(status := ButtonStatus(target.action).value)
                  && forall k | k in t.rows && k != target.id.value :: r.table.rows[k] == t.rows[k])
    ensures var target := CustomId.Parse(customId);
            HandleButton(t, actor, customId).reply == NotAllowed <==>
              target.id.Some? && target.id.value in t.rows && ButtonStatus(target.action).Some?
              && !MayChangeStatus(actor, t.rows[target.id.value])
  {
  }

  /** Pressing the Close button a listing card was built with closes that
      very listing when the presser is its owner or a moderator. */
  lemma CloseButtonOfCard(t: Table, actor: Actor, id: nat)
    requires Valid(t) && id in t.rows && MayChangeStatus(actor, t.rows[id])
    ensures HandleButton(t, actor, CustomId.Build("close", id)) ==
            Outcome(MarkStatus(t, Closed, id), ClosedByButton(id))
  {
    CustomId.ParseBuild("close", id);
  }

  /** No terminal state: a listing closed with `/trade close` can still be
      marked traded with its button, by the same owner. */
  lemma ClosedListingCanBeMarkedTraded(t: Table, owner: Actor, id: nat)
    requires Valid(t) && id in t.rows && t.rows[id].userId == owner.userId
    ensures var closed := HandleClose(t, owner, id);
            var traded := HandleButton(closed.table, owner, CustomId.Build("marktraded", id));
            && closed.reply == ClosedTrade(id)
            && traded.reply == MarkedTraded(id)
            && traded.table.rows[id] == t.rows[id].(status := Traded)
  {
    CustomId.ParseBuild("marktraded", id);
  }

  /** The limiter is consulted before the listing is looked up, so a
      `/trade close` that finds nothing still starts the user's cooldown. */
  lemma FailedCloseStartsCooldown(s: State, actor: Actor, channelId: string, now: int, windowMs: int,
                                  id: int, card: Option<MessageRef>)
    requires Valid(s.table) && id !in s.table.rows
    requires now - LastUse(s.lastUse, actor.userId) >= windowMs
    ensures var r := HandleCommand(s, actor, channelId, now, windowMs, Close(id), card);
            && r.reply == NotFound && r.state.table == s.table
            && OnCooldown(r.state.lastUse, actor.userId, now, windowMs).blocked == (windowMs > 0)
  {
  }
}
