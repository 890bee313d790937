/** The request handlers of the web application that touch the store: saving, listing and deleting
    chats, each behind the session check. */
module Application {
  import opened Wrappers
  import opened ChatStore
  import opened Recency
  import opened Database

  /** The session: no authenticated user, or the user who logged in. */
  datatype Session = Anonymous | LoggedIn(username: Username)

  /** The JSON body of `/save_chat`; `None` stands for a missing or null key. */
  datatype SaveRequest = SaveRequest(chatId: Option<ChatId>, chatData: Option<ChatData>)

  /** The JSON body of `/delete_chat`; `None` stands for a missing or null `chatId`. */
  datatype DeleteRequest = DeleteRequest(chatId: Option<ChatId>)

  /** What a handler answers. */
  datatype Response =
    | Done                            // `{"success": true}`
    | ChatList(chats: seq<ChatView>)  // `{"chats": ...}`
    | NotAuthenticated                // `{"error": "Not authenticated"}`
    | NoChatId                        // `{"error": "No chat ID provided"}`
    | ServerError                     // an exception escaped the handler

  /** The HTTP status code of a response. */
  function Status(r: Response): nat {
    match r
    case Done => 200
    case ChatList(_) => 200
    case NotAuthenticated => 401
    case NoChatId => 400
    case ServerError => 500
  }

  /** A handler's response and the store it leaves behind. */
  datatype Reply = Reply(response: Response, store: Store)

  /** `/save_chat`: the upsert for the session's user followed by a retention pass for that user.
      A missing `chatId` or `chatData`, or a save that rolls back, ends in an exception before
      anything is committed. */
  function SaveChatRoute(s: Store, session: Session, req: SaveRequest, now: Time): (r: Reply)
    ensures Status(r.response) == 401 <==> session.Anonymous?
    ensures r.response.Done? || r.response.NotAuthenticated? || r.response.ServerError?
    ensures !r.response.Done? ==> r.store == s
    ensures r.response.Done? ==>
              && session.LoggedIn? && req.chatId.Some? && req.chatData.Some?
              && var saved := SaveChat(s, session.username, req.chatId.value, req.chatData.value, now);
                 && saved.Success?
                 && r.store == DeleteOldChats(saved.value, session.username)
                 && |Owned(r.store.chats, session.username)| <= RetentionLimit
    // a logged-in request with both fields and well-formed messages is stored and answered with success
    ensures session.LoggedIn? && req.chatId.Some? && req.chatData.Some?
            && SaveChat(s, session.username, req.chatId.value, req.chatData.value, now).Success?
            ==> r.response.Done?
    ensures Valid(s) ==> Valid(r.store)
    ensures Bounded(s) ==> Bounded(r.store)
  {
    match session
    case Anonymous => Reply(NotAuthenticated, s)
    case LoggedIn(u) =>
      if req.chatId.None? || req.chatData.None? then Reply(ServerError, s)
      else
        match SaveChat(s, u, req.chatId.value, req.chatData.value, now)
        case Failure(_) => Reply(ServerError, s)
        case Success(saved) =>
          SaveAndRetainKeepBound(s, u, req.chatId.value, req.chatData.value, now);
          Reply(Done, DeleteOldChats(saved, u))
  }

  /** `/get_chats`: the session user's listing; the store is only read. */
  function GetChatsRoute(s: Store, session: Session): (r: Reply)
    ensures r.store == s
    ensures Status(r.response) == 401 <==> session.Anonymous?
    ensures session.LoggedIn? ==>
              && r.response.ChatList?
              && r.response.chats == GetUserChats(s, session.username)
              && |r.response.chats| <= RetentionLimit
              && forall i :: 0 <= i < |r.response.chats| ==>
                   r.response.chats[i].id in Owned(s.chats, session.username)
  {
    match session
    case Anonymous => Reply(NotAuthenticated, s)
    case LoggedIn(u) => Reply(ChatList(GetUserChats(s, u)), s)
  }

  /** `/delete_chat`: rejects a missing or empty chat id, answers 500 for an id the store cannot bind,
      otherwise deletes the chat if the session user owns it and reports success either way. */
  function DeleteChatRoute(s: Store, session: Session, req: DeleteRequest): (r: Reply)
    ensures Status(r.response) == 401 <==> session.Anonymous?
    ensures session.LoggedIn? && (req.chatId.None? || req.chatId.value == "") ==> r == Reply(NoChatId, s)
    ensures session.LoggedIn? && req.chatId.Some? && req.chatId.value != "" ==>
              if Storable(req.chatId.value) then r.response == Done else r == Reply(ServerError, s)
    ensures r.response.Done? && req.chatId.value in s.chats && s.chats[req.chatId.value].username == session.username ==>
              req.chatId.value !in r.store.chats && MessagesOf(r.store, req.chatId.value) == []
    ensures !(r.response.Done? && req.chatId.value in s.chats && s.chats[req.chatId.value].username == session.username) ==>
              r.store == s
    ensures forall k :: k in r.store.chats ==> k in s.chats && r.store.chats[k] == s.chats[k] && MessagesOf(r.store, k) == MessagesOf(s, k)
    ensures Valid(s) ==> Valid(r.store)
    ensures Bounded(s) ==> Bounded(r.store)
  {
    match session
    case Anonymous => Reply(NotAuthenticated, s)
    case LoggedIn(u) =>
      if req.chatId.None? || req.chatId.value == "" then Reply(NoChatId, s)
      else if !Storable(req.chatId.value) then Reply(ServerError, s)
      else
        var r := DeleteChat(s, u, req.chatId.value);
        forall w ensures Owned(r.chats, w) <= Owned(s.chats, w) {
        }
        forall w ensures |Owned(r.chats, w)| <= |Owned(s.chats, w)| {
          SubsetCardinality(Owned(r.chats, w), Owned(s.chats, w));
        }
        Reply(Done, r)
  }

  /** After a save and the retention pass for the saver, no user has more chats than before or more
      than the limit, provided none had before. */
  lemma SaveAndRetainKeepBound(s: Store, u: Username, id: ChatId, d: ChatData, now: Time)
    requires SaveChat(s, u, id, d, now).Success?
    ensures Bounded(s) ==> Bounded(DeleteOldChats(SaveChat(s, u, id, d, now).value, u))
  {
    var saved := SaveChat(s, u, id, d, now).value;
    var r := DeleteOldChats(saved, u);
    if Bounded(s) {
      forall w ensures |Owned(r.chats, w)| <= RetentionLimit {
        if w != u {
          SaveKeepsOthersChats(s, u, id, d, now, w);
          assert Owned(r.chats, w) == Owned(saved.chats, w);
        }
      }
    }
  }

  // ---------------------------------------------------------------------------------------------
  // Properties of the handlers

  /** A second identical delete request gets the same answer and changes nothing more. */
  lemma DeleteRouteIsIdempotent(s: Store, session: Session, req: DeleteRequest)
    ensures var first := DeleteChatRoute(s, session, req);
      DeleteChatRoute(first.store, session, req) == first
  {
    if session.LoggedIn? && req.chatId.Some? && req.chatId.value != "" {
      DeleteChatIsIdempotent(s, session.username, req.chatId.value);
    }
  }

  /** The answer to a delete request does not depend on the store, so it reveals nothing about
      whether the chat exists or whose it is. */
  lemma DeleteRouteHidesExistence(s1: Store, s2: Store, session: Session, req: DeleteRequest)
    ensures DeleteChatRoute(s1, session, req).response == DeleteChatRoute(s2, session, req).response
  {
  }

  /** A chat saved under the empty id cannot be deleted through the delete route, which rejects an
      empty id before it looks at the store. */
  lemma EmptyChatIdIsUndeletable(s: Store, u: Username, d: ChatData, now: Time)
    requires forall k :: k in s.chats ==> s.chats[k].updatedAt < now
    requires "" !in s.chats || s.chats[""].username == u
    requires SaveChat(s, u, "", d, now).Success?
    ensures var saved := SaveChatRoute(s, LoggedIn(u), SaveRequest(Some(""), Some(d)), now);
      && saved.response == Done
      && "" in saved.store.chats
      && DeleteChatRoute(saved.store, LoggedIn(u), DeleteRequest(Some(""))) == Reply(NoChatId, saved.store)
  {
    var t := SaveChat(s, u, "", d, now).value;
    NewestIsListedFirst(t, u, "");
    assert Lists(GetUserChats(t, u), "");
  }

  /** Saving a chat and then listing the user's chats returns that chat, with the payload's
      title, model and messages, when the save happens later than every stored update. */
  lemma SaveThenGetRoundTrip(s: Store, u: Username, id: ChatId, d: ChatData, now: Time)
    requires forall k :: k in s.chats ==> s.chats[k].updatedAt < now
    requires id !in s.chats || s.chats[id].username == u
    requires SaveChatRoute(s, LoggedIn(u), SaveRequest(Some(id), Some(d)), now).response == Done
    ensures var after := SaveChatRoute(s, LoggedIn(u), SaveRequest(Some(id), Some(d)), now).store;
      var listing := GetChatsRoute(after, LoggedIn(u)).response;
      && listing.ChatList?
      && Lists(listing.chats, id)
      && forall i :: 0 <= i < |listing.chats| && listing.chats[i].id == id ==>
           && listing.chats[i].title == d.title.GetOr(DefaultTitle)
           && listing.chats[i].model == d.model.GetOr(DefaultModel)
           && Stamped(listing.chats[i].messages, PayloadMessages(d), now)
  {
    var saved := SaveChat(s, u, id, d, now).value;
    SavedChatIsListed(s, u, id, d, now);
    ListingUnchangedByRetention(saved, u);
  }

  // ---------------------------------------------------------------------------------------------
  // Every state the handlers can reach

  /** One request to a handler that touches the store. */
  datatype Call =
    | SaveCall(session: Session, save: SaveRequest, now: Time)
    | GetCall(session: Session)
    | DeleteCall(session: Session, delete: DeleteRequest)

  /** Handles one request. */
  function Serve(s: Store, c: Call): Reply {
    match c
    case SaveCall(session, req, now) => SaveChatRoute(s, session, req, now)
    case GetCall(session) => GetChatsRoute(s, session)
    case DeleteCall(session, req) => DeleteChatRoute(s, session, req)
  }

  /** The store after handling `calls` in order. */
  function Replay(s: Store, calls: seq<Call>): Store
    decreases |calls|
  {
    if |calls| == 0 then s else Replay(Serve(s, calls[0]).store, calls[1..])
  }

  /** From the state `init_db` creates, every sequence of requests leaves no message without its
      chat and no user with more than `RetentionLimit` chats. */
  lemma {:induction false} ReachableStatesAreValid(s: Store, calls: seq<Call>)
    requires Valid(s) && Bounded(s)
    ensures Valid(Replay(s, calls)) && Bounded(Replay(s, calls))
    decreases |calls|
  {
    if |calls| > 0 {
      ReachableStatesAreValid(Serve(s, calls[0]).store, calls[1..]);
    }
  }

  /** The store `init_db` creates satisfies both invariants. */
  lemma EmptyStoreIsValid()
    ensures Valid(Empty()) && Bounded(Empty())
  {
  }
}
