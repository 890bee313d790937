/** The four store operations: the upsert of `save_chat`, the bounded listing of `get_user_chats`,
    the retention pass of `delete_old_chats`, and the owner-scoped delete run by the delete route. */
module Database {
  import opened Wrappers
  import opened ChatStore
  import opened Recency

  /** One entry of a payload's `messages` list; `None` stands for a key that is missing or null. */
  datatype RawMessage = RawMessage(role: Option<string>, content: Option<string>)

  /** The `chat_data` payload of a save; `None` stands for a missing key. */
  datatype ChatData = ChatData(
    title: Option<string>,
    model: Option<string>,
    createdAt: Option<Time>,
    messages: Option<seq<RawMessage>>)

  /** Why a save was rolled back: the upsert of the chat row was refused because its id, title or
      model holds U+0000; or the payload message at `index` has no role or no content, so reading it
      raises or its insert breaks a `NOT NULL` column, or its role or content holds U+0000. */
  datatype SaveError = UnstorableRow | MalformedMessage(index: nat)

  /** One chat as the listing returns it. */
  datatype ChatView = ChatView(id: ChatId, title: string, model: string, messages: seq<Message>, createdAt: Time)

  /** A payload message the insert loop can write. */
  predicate WellFormed(m: RawMessage) {
    m.role.Some? && m.content.Some? && Storable(m.role.value) && Storable(m.content.value)
  }

  /** The payload's message list; an absent `messages` key is an empty list. */
  function PayloadMessages(data: ChatData): seq<RawMessage> {
    data.messages.GetOr([])
  }

  /** `msgs` holds exactly the payload messages `raw`, in payload order, each stamped with `now`. */
  predicate Stamped(msgs: seq<Message>, raw: seq<RawMessage>, now: Time) {
    && |msgs| == |raw|
    && forall i :: 0 <= i < |raw| ==>
         WellFormed(raw[i]) && msgs[i] == Message(raw[i].role.value, raw[i].content.value, now)
  }

  /** The upsert can bind the chat's id and the title and model it stores; the session user is
      always a key of the fixed user table and so needs no check. */
  predicate RowStorable(id: ChatId, data: ChatData) {
    Storable(id) && Storable(data.title.GetOr(DefaultTitle)) && Storable(data.model.GetOr(DefaultModel))
  }

  /** The message rows one save inserts, all with the same write time; fails at the first entry the
      insert loop cannot write. */
  function StampMessages(raw: seq<RawMessage>, now: Time): (r: Result<seq<Message>, SaveError>)
    ensures r.Success? <==> forall i :: 0 <= i < |raw| ==> WellFormed(raw[i])
    ensures r.Success? ==> Stamped(r.value, raw, now)
    ensures r.Failure? ==>
              && r.error.MalformedMessage?
              && r.error.index < |raw|
              && !WellFormed(raw[r.error.index])
              && forall i :: 0 <= i < r.error.index ==> WellFormed(raw[i])
  {
    if |raw| == 0 then Success([])
    else if !WellFormed(raw[0]) then Failure(MalformedMessage(0))
    else
      match StampMessages(raw[1..], now)
      case Failure(e) => Failure(MalformedMessage(e.index + 1))
      case Success(rest) => Success([Message(raw[0].role.value, raw[0].content.value, now)] + rest)
  }

  /** `save_chat`: an upsert that conflicts on `chat_id` alone, followed by deleting the chat's
      messages and inserting the payload's, all in one transaction that commits only at the end. */
  function SaveChat(s: Store, u: Username, id: ChatId, data: ChatData, now: Time): (r: Result<Store, SaveError>)
    ensures r.Success? <==>
              && RowStorable(id, data)
              && forall i :: 0 <= i < |PayloadMessages(data)| ==> WellFormed(PayloadMessages(data)[i])
    // the upsert runs first, so a refused row is reported before any message
    ensures r.Failure? ==> (r.error.UnstorableRow? <==> !RowStorable(id, data))
    ensures r.Failure? && r.error.MalformedMessage? ==>
              r.error.index < |PayloadMessages(data)| && !WellFormed(PayloadMessages(data)[r.error.index])
    ensures r.Success? ==> var t := r.value;
      && (Valid(s) ==> Valid(t))
      && id in t.chats
      && |t.chats| == |s.chats| + (if id in s.chats then 0 else 1)
      // the payload's fields, or their defaults
      && t.chats[id].title == data.title.GetOr(DefaultTitle)
      && t.chats[id].model == data.model.GetOr(DefaultModel)
      && t.chats[id].updatedAt == now
      // an existing row keeps its owner and creation time
      && (id in s.chats ==> t.chats[id].username == s.chats[id].username && t.chats[id].createdAt == s.chats[id].createdAt)
      && (id !in s.chats ==> t.chats[id].username == u && t.chats[id].createdAt == data.createdAt.GetOr(now))
      // the messages are replaced wholesale
      && Stamped(MessagesOf(t, id), PayloadMessages(data), now)
      // no other chat changes
      && (forall k :: k != id ==> (k in t.chats <==> k in s.chats))
      && (forall k :: k != id && k in s.chats ==> t.chats[k] == s.chats[k])
      && (forall k :: k != id ==> MessagesOf(t, k) == MessagesOf(s, k))
  {
    if !RowStorable(id, data) then Failure(UnstorableRow)
    else
      match StampMessages(PayloadMessages(data), now)
      case Failure(e) => Failure(e)
      case Success(msgs) =>
        var title := data.title.GetOr(DefaultTitle);
        var model := data.model.GetOr(DefaultModel);
        var row :=
          if id in s.chats then s.chats[id].(title := title, model := model, updatedAt := now)
          else ChatRow(u, title, model, data.createdAt.GetOr(now), now);
        Success(Store(s.chats[id := row], s.messages[id := msgs]))
  }

  /** The listing entry of chat `id`: its row and its full message list. */
  function ViewOf(s: Store, id: ChatId): ChatView
    requires id in s.chats
  {
    var row := s.chats[id];
    ChatView(id, row.title, row.model, MessagesOf(s, id), row.createdAt)
  }

  /** Some entry of `views` is chat `id`. */
  predicate Lists(views: seq<ChatView>, id: ChatId) {
    exists i :: 0 <= i < |views| && views[i].id == id
  }

  /** The first `RetentionLimit` entries of `u`'s ranking, or all of them when there are fewer. */
  function TopIds(chats: map<ChatId, ChatRow>, u: Username): (top: seq<ChatId>)
    ensures |top| == if |Owned(chats, u)| > RetentionLimit then RetentionLimit else |Owned(chats, u)|
    ensures NewestFirst(chats, top)
    ensures forall k :: k in top ==> k in Owned(chats, u)
    ensures forall k :: k in Owned(chats, u) ==> (k in top <==> Recent(chats, u, k))
  {
    var ranked := UserRanking(chats, u);
    var n := if |ranked| > RetentionLimit then RetentionLimit else |ranked|;
    forall k | k in Owned(chats, u) ensures k in ranked[..n] <==> Recent(chats, u, k) {
      PrefixIsRecent(chats, u, n, k);
    }
    assert ranked[..|ranked|] == ranked;
    ranked[..n]
  }

  /** The listing entries of the chats `ids`, in the same order. */
  function ViewsOf(s: Store, ids: seq<ChatId>): (r: seq<ChatView>)
    requires forall k :: k in ids ==> k in s.chats
    ensures |r| == |ids|
    ensures forall i :: 0 <= i < |ids| ==> r[i] == ViewOf(s, ids[i])
    ensures forall k :: Lists(r, k) <==> k in ids
  {
    var r := seq(|ids|, i requires 0 <= i < |ids| => ViewOf(s, ids[i]));
    assert forall i :: 0 <= i < |ids| ==> r[i].id == ids[i];
    r
  }

  /** `get_user_chats`: `u`'s chats, newest first, at most `RetentionLimit` of them, each with its
      messages. */
  function GetUserChats(s: Store, u: Username): (r: seq<ChatView>)
    ensures |r| == if |Owned(s.chats, u)| > RetentionLimit then RetentionLimit else |Owned(s.chats, u)|
    ensures forall i :: 0 <= i < |r| ==> r[i].id in Owned(s.chats, u) && r[i] == ViewOf(s, r[i].id)
    ensures forall i, j :: 0 <= i < j < |r| ==> Newer(s.chats, r[i].id, r[j].id)
    ensures forall k :: k in Owned(s.chats, u) ==> (Lists(r, k) <==> Recent(s.chats, u, k))
  {
    ViewsOf(s, TopIds(s.chats, u))
  }

  /** The delete loop of `delete_old_chats`: for each id in turn, its messages and then its row. */
  function DeleteEach(s: Store, ids: seq<ChatId>): (r: Store)
    ensures r == Forget(s, set k | k in ids)
    decreases |ids|
  {
    if |ids| == 0 then s
    else
      var rest := DeleteEach(Forget(s, {ids[0]}), ids[1..]);
      assert (set k | k in ids) == {ids[0]} + (set k | k in ids[1..]);
      rest
  }

  /** `delete_old_chats`: when `u` has more than `RetentionLimit` chats, every chat of `u` past that
      many in listing order is deleted with its messages. */
  function DeleteOldChats(s: Store, u: Username): (r: Store)
    ensures Valid(s) ==> Valid(r)
    ensures |Owned(r.chats, u)| <= RetentionLimit
    ensures |Owned(s.chats, u)| <= RetentionLimit ==> r == s
    ensures |Owned(s.chats, u)| > RetentionLimit ==> |Owned(r.chats, u)| == RetentionLimit
    // a chat survives iff it belongs to someone else or fewer than the limit of u's chats are newer
    ensures forall k :: k in r.chats <==> k in s.chats && (s.chats[k].username != u || Recent(s.chats, u, k))
    // survivors are untouched, and nothing is left of the evicted
    ensures forall k :: k in r.chats ==> r.chats[k] == s.chats[k] && MessagesOf(r, k) == MessagesOf(s, k)
    ensures forall k :: k in s.chats && k !in r.chats ==> MessagesOf(r, k) == []
  {
    var ranked := UserRanking(s.chats, u);
    if |ranked| > RetentionLimit then
      var evicted := ranked[RetentionLimit..];
      EvictedAreNotRecent(s.chats, u);
      ForgetOnlyOld(s, u, set k | k in evicted);
      DeleteEach(s, evicted)
    else
      FewChatsAreRecent(s.chats, u);
      s
  }

  /** Past the first `RetentionLimit` entries of `u`'s ranking lie exactly `u`'s chats that are not
      recent, and deleting them leaves `u` exactly `RetentionLimit` chats. */
  lemma EvictedAreNotRecent(chats: map<ChatId, ChatRow>, u: Username)
    requires |UserRanking(chats, u)| > RetentionLimit
    ensures var evicted := UserRanking(chats, u)[RetentionLimit..];
      && (forall k :: k in Owned(chats, u) ==> (k in evicted <==> !Recent(chats, u, k)))
      && |Owned(chats - (set k | k in evicted), u)| == RetentionLimit
  {
    var ranked := UserRanking(chats, u);
    NewestFirstDistinct(chats, ranked);
    SplitIsPartition(ranked, RetentionLimit);
    var evicted := ranked[RetentionLimit..];
    var kept := ranked[..RetentionLimit];
    forall k | k in Owned(chats, u) ensures k in evicted <==> !Recent(chats, u, k) {
      PrefixIsRecent(chats, u, RetentionLimit, k);
    }
    assert Owned(chats - (set k | k in evicted), u) == set k | k in kept;
    DistinctCardinality(kept);
  }

  /** Deleting a set of `u`'s chats that are exactly the ones not recent leaves the store the
      retention pass promises. */
  lemma ForgetOnlyOld(s: Store, u: Username, gone: set<ChatId>)
    requires forall k :: k in gone ==> k in Owned(s.chats, u)
    requires forall k :: k in Owned(s.chats, u) ==> (k in gone <==> !Recent(s.chats, u, k))
    requires |Owned(s.chats - gone, u)| == RetentionLimit
    ensures var r := Forget(s, gone);
      && (Valid(s) ==> Valid(r))
      && |Owned(r.chats, u)| == RetentionLimit
      && (forall k :: k in r.chats <==> k in s.chats && (s.chats[k].username != u || Recent(s.chats, u, k)))
      && (forall k :: k in r.chats ==> r.chats[k] == s.chats[k] && MessagesOf(r, k) == MessagesOf(s, k))
      && (forall k :: k in s.chats && k !in r.chats ==> MessagesOf(r, k) == [])
  {
  }

  /** A user with at most `RetentionLimit` chats has only recent chats. */
  lemma FewChatsAreRecent(chats: map<ChatId, ChatRow>, u: Username)
    requires |UserRanking(chats, u)| <= RetentionLimit
    ensures forall k :: k in Owned(chats, u) ==> Recent(chats, u, k)
  {
    var ranked := UserRanking(chats, u);
    forall k | k in Owned(chats, u) ensures Recent(chats, u, k) {
      var i :| 0 <= i < |ranked| && ranked[i] == k;
      RankIsPosition(chats, Owned(chats, u), ranked, i);
    }
  }

  /** The SQL of the `/delete_chat` route: delete the chat's messages if `u` owns the chat, then the
      chat row if `u` owns it. */
  function DeleteChat(s: Store, u: Username, id: ChatId): (r: Store)
    ensures Valid(s) ==> Valid(r)
    ensures id in s.chats && s.chats[id].username == u ==> id !in r.chats && MessagesOf(r, id) == []
    ensures !(id in s.chats && s.chats[id].username == u) ==> r == s
    ensures forall k :: k != id ==> (k in r.chats <==> k in s.chats)
    ensures forall k :: k != id && k in r.chats ==> r.chats[k] == s.chats[k] && MessagesOf(r, k) == MessagesOf(s, k)
  {
    var owns := id in s.chats && s.chats[id].username == u;
    var afterMessages := if owns then s.(messages := s.messages - {id}) else s;
    if id in afterMessages.chats && afterMessages.chats[id].username == u then
      afterMessages.(chats := afterMessages.chats - {id})
    else
      afterMessages
  }

  // ---------------------------------------------------------------------------------------------
  // Properties relating several operations

  /** Two saves of one chat: the second replaces title and model but keeps the owner and the
      creation time the first one left. */
  lemma ResaveKeepsCreation(s: Store, u1: Username, u2: Username, id: ChatId, d1: ChatData, d2: ChatData, t1: Time, t2: Time)
    requires SaveChat(s, u1, id, d1, t1).Success?
    requires SaveChat(SaveChat(s, u1, id, d1, t1).value, u2, id, d2, t2).Success?
    ensures var first := SaveChat(s, u1, id, d1, t1).value.chats[id];
      var second := SaveChat(SaveChat(s, u1, id, d1, t1).value, u2, id, d2, t2).value.chats[id];
      && second.createdAt == first.createdAt
      && second.username == first.username
      && second.title == d2.title.GetOr(DefaultTitle)
      && second.model == d2.model.GetOr(DefaultModel)
  {
  }

  /** Repeating a save with the same payload at the same time changes nothing more: the upsert
      creates no duplicate row and the message replace no duplicate messages. */
  lemma SaveIsIdempotent(s: Store, u: Username, id: ChatId, d: ChatData, now: Time)
    requires SaveChat(s, u, id, d, now).Success?
    ensures var once := SaveChat(s, u, id, d, now).value;
      SaveChat(once, u, id, d, now) == Success(once)
  {
    var once := SaveChat(s, u, id, d, now).value;
    var twice := SaveChat(once, u, id, d, now).value;
    assert twice.chats == once.chats;
    assert twice.messages == once.messages;
  }

  /** Saving `u`'s chat at a time later than every stored update makes it the first chat `u`'s
      listing returns, carrying the payload's title, model and messages. */
  lemma SaveThenListFirst(s: Store, u: Username, id: ChatId, d: ChatData, now: Time)
    requires forall k :: k in s.chats ==> s.chats[k].updatedAt < now
    requires id !in s.chats || s.chats[id].username == u
    requires SaveChat(s, u, id, d, now).Success?
    ensures var views := GetUserChats(SaveChat(s, u, id, d, now).value, u);
      && |views| > 0
      && views[0].id == id
      && views[0].title == d.title.GetOr(DefaultTitle)
      && views[0].model == d.model.GetOr(DefaultModel)
      && Stamped(views[0].messages, PayloadMessages(d), now)
      && views[0].createdAt == (if id in s.chats then s.chats[id].createdAt else d.createdAt.GetOr(now))
  {
    var t := SaveChat(s, u, id, d, now).value;
    assert id in Owned(t.chats, u);
    NewestIsListedFirst(t, u, id);
  }

  /** A chat of `u` updated strictly later than every other stored chat heads `u`'s listing. */
  lemma NewestIsListedFirst(s: Store, u: Username, id: ChatId)
    requires id in Owned(s.chats, u)
    requires forall k :: k in s.chats && k != id ==> s.chats[k].updatedAt < s.chats[id].updatedAt
    ensures var views := GetUserChats(s, u); |views| > 0 && views[0] == ViewOf(s, id)
  {
    forall k | k in Owned(s.chats, u) ensures !Newer(s.chats, k, id) {
      IdLessIrreflexive(id);
    }
    assert (set k | k in Owned(s.chats, u) && Newer(s.chats, k, id)) == {};
    assert Recent(s.chats, u, id);
    var ranked := UserRanking(s.chats, u);
    var i :| 0 <= i < |ranked| && ranked[i] == id;
    RankIsPosition(s.chats, Owned(s.chats, u), ranked, i);
    assert TopIds(s.chats, u)[0] == id;
  }

  /** The listing after such a save contains the saved chat, and every entry for it carries the
      payload's title, model and messages. */
  lemma SavedChatIsListed(s: Store, u: Username, id: ChatId, d: ChatData, now: Time)
    requires forall k :: k in s.chats ==> s.chats[k].updatedAt < now
    requires id !in s.chats || s.chats[id].username == u
    requires SaveChat(s, u, id, d, now).Success?
    ensures var views := GetUserChats(SaveChat(s, u, id, d, now).value, u);
      && Lists(views, id)
      && forall i :: 0 <= i < |views| && views[i].id == id ==>
           && views[i].title == d.title.GetOr(DefaultTitle)
           && views[i].model == d.model.GetOr(DefaultModel)
           && Stamped(views[i].messages, PayloadMessages(d), now)
  {
    var t := SaveChat(s, u, id, d, now).value;
    var views := GetUserChats(t, u);
    SaveThenListFirst(s, u, id, d, now);
    forall i | 0 <= i < |views| && views[i].id == id ensures views[i] == views[0] {
      assert views[i] == ViewOf(t, id);
    }
  }

  /** A chat that retention keeps was updated no earlier than any chat of the same user it
      evicts. */
  lemma RetentionEvictsOldest(s: Store, u: Username, a: ChatId, b: ChatId)
    requires a in Owned(s.chats, u) && a in DeleteOldChats(s, u).chats
    requires b in Owned(s.chats, u) && b !in DeleteOldChats(s, u).chats
    ensures Newer(s.chats, a, b)
    ensures s.chats[a].updatedAt >= s.chats[b].updatedAt
  {
    var ranked := UserRanking(s.chats, u);
    var i :| 0 <= i < |ranked| && ranked[i] == a;
    var j :| 0 <= j < |ranked| && ranked[j] == b;
    RankIsPosition(s.chats, Owned(s.chats, u), ranked, i);
    RankIsPosition(s.chats, Owned(s.chats, u), ranked, j);
    assert i < RetentionLimit <= j;
  }

  /** With one chat over the limit and distinct update times, retention removes exactly the least
      recently updated chat and leaves the other chats, messages included, as they were. */
  lemma RetentionEvictsSingleOldest(s: Store, u: Username, b: ChatId)
    requires |Owned(s.chats, u)| == RetentionLimit + 1
    requires b in Owned(s.chats, u)
    requires forall a :: a in Owned(s.chats, u) && a != b ==> s.chats[a].updatedAt > s.chats[b].updatedAt
    ensures b !in DeleteOldChats(s, u).chats
    ensures forall a :: a in Owned(s.chats, u) && a != b ==>
              a in DeleteOldChats(s, u).chats && MessagesOf(DeleteOldChats(s, u), a) == MessagesOf(s, a)
  {
    var owned := Owned(s.chats, u);
    IdLessIrreflexive(b);
    assert (set k | k in owned && Newer(s.chats, k, b)) == owned - {b};
    forall a | a in owned && a != b ensures Recent(s.chats, u, a) {
      var newer := set k | k in owned && Newer(s.chats, k, a);
      NewerIsStrictTotalOrder(s.chats);
      assert newer <= owned - {a, b};
      SubsetCardinality(newer, owned - {a, b});
    }
  }

  /** A second retention pass for the same user removes nothing. */
  lemma RetentionIsIdempotent(s: Store, u: Username)
    ensures DeleteOldChats(DeleteOldChats(s, u), u) == DeleteOldChats(s, u)
  {
  }

  /** Retention removes nothing the listing returns: `u`'s listing is the same before and after. */
  lemma ListingUnchangedByRetention(s: Store, u: Username)
    ensures GetUserChats(DeleteOldChats(s, u), u) == GetUserChats(s, u)
  {
    if |Owned(s.chats, u)| > RetentionLimit {
      TopIdsUnchangedByRetention(s, u);
      ViewsAgree(s, DeleteOldChats(s, u), TopIds(s.chats, u));
    }
  }

  /** Two stores that agree on the rows and messages of `ids` give the same listing entries. */
  lemma ViewsAgree(s: Store, r: Store, ids: seq<ChatId>)
    requires forall k :: k in ids ==> k in s.chats && k in r.chats && r.chats[k] == s.chats[k]
    requires forall k :: k in ids ==> MessagesOf(r, k) == MessagesOf(s, k)
    ensures ViewsOf(r, ids) == ViewsOf(s, ids)
  {
  }

  /** Retention keeps exactly the chats the listing shows, so their listing order is unchanged. */
  lemma TopIdsUnchangedByRetention(s: Store, u: Username)
    requires |Owned(s.chats, u)| > RetentionLimit
    ensures TopIds(DeleteOldChats(s, u).chats, u) == TopIds(s.chats, u)
    ensures forall k :: k in TopIds(s.chats, u) ==> k in DeleteOldChats(s, u).chats
  {
    var r := DeleteOldChats(s, u);
    var before := TopIds(s.chats, u);
    var after := TopIds(r.chats, u);
    SurvivorsAreListed(s.chats, r.chats, u);
    TopIdsListAll(r.chats, u);
    forall i, j | 0 <= i < j < |before| ensures Newer(r.chats, before[i], before[j]) {
      assert Newer(s.chats, before[i], before[j]);
    }
    NewestFirstUnique(r.chats, after, before);
  }

  /** A store that keeps, unchanged, every chat of other users and exactly the recent chats of
      `u` holds as `u`'s chats exactly the listed ones. */
  lemma SurvivorsAreListed(chats: map<ChatId, ChatRow>, kept: map<ChatId, ChatRow>, u: Username)
    requires forall k :: k in kept <==> k in chats && (chats[k].username != u || Recent(chats, u, k))
    requires forall k :: k in kept ==> kept[k] == chats[k]
    ensures Owned(kept, u) == set k | k in TopIds(chats, u)
    ensures forall k :: k in TopIds(chats, u) ==> k in kept && kept[k] == chats[k]
  {
    var top := TopIds(chats, u);
    forall k | k in top ensures k in kept && kept[k] == chats[k] {
      assert k in Owned(chats, u);
    }
    forall k | k in Owned(kept, u) ensures k in top {
      assert k in Owned(chats, u);
    }
  }

  /** A user with at most `RetentionLimit` chats has all of them listed. */
  lemma TopIdsListAll(chats: map<ChatId, ChatRow>, u: Username)
    requires |Owned(chats, u)| <= RetentionLimit
    ensures forall k :: k in TopIds(chats, u) <==> k in Owned(chats, u)
  {
  }

  /** Deleting a chat a second time changes nothing more. */
  lemma DeleteChatIsIdempotent(s: Store, u: Username, id: ChatId)
    ensures DeleteChat(DeleteChat(s, u, id), u, id) == DeleteChat(s, u, id)
  {
  }

  /** A save touches only the chat sets of the saving user: an existing row keeps its owner, a new
      one is `u`'s. */
  lemma SaveKeepsOthersChats(s: Store, u: Username, id: ChatId, d: ChatData, now: Time, w: Username)
    requires SaveChat(s, u, id, d, now).Success?
    ensures var t := SaveChat(s, u, id, d, now).value;
      && (w != u ==> Owned(t.chats, w) == Owned(s.chats, w))
      && Owned(t.chats, u) <= Owned(s.chats, u) + {id}
  {
    var t := SaveChat(s, u, id, d, now).value;
    assert forall k :: k in t.chats ==> t.chats[k].username == (if k == id && id !in s.chats then u else s.chats[k].username);
  }

  /** Chat ids are global: a save by a user who does not own the chat replaces the owner's title,
      model and messages, while the row stays the owner's and out of the saver's listing. */
  lemma ForeignSaveOverwritesOwnersChat(s: Store, u: Username, id: ChatId, d: ChatData, now: Time)
    requires id in s.chats && s.chats[id].username != u
    requires SaveChat(s, u, id, d, now).Success?
    ensures var t := SaveChat(s, u, id, d, now).value;
      && t.chats[id].username == s.chats[id].username
      && t.chats[id].title == d.title.GetOr(DefaultTitle)
      && Stamped(MessagesOf(t, id), PayloadMessages(d), now)
      && id !in Owned(t.chats, u)
      && !Lists(GetUserChats(t, u), id)
  {
  }
}
