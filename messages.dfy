/** MessageServiceImpl: private and order conversations between two users, each
    with one unread counter per participant, and the messages sent in them. */
module Messages {

  import opened Wrappers
  import O = OrderEntity
  import opened Tables
  import opened Text

  /** Conversation.Type. */
  datatype ConversationType = Private | OrderChat
  {
    function Code(): int
    {
      match this
      case Private => 1
      case OrderChat => 2
    }
  }

  /** One `conversation` row. The unread counters are nullable columns; the
      timestamps are not modelled. */
  datatype Conversation = Conversation(
    convType: ConversationType,
    participant1Id: nat,
    participant2Id: nat,
    orderId: Option<nat>,
    projectId: Option<nat>,
    lastMessageId: Option<nat>,
    lastMessageContent: Option<string>,
    participant1Unread: Option<int>,
    participant2Unread: Option<int>,
    deleted: bool)

  /** One `message` row; `msgType` is the raw Message.Type code. */
  datatype Message = Message(
    conversationId: nat,
    senderId: nat,
    receiverId: nat,
    msgType: int,
    content: string,
    attachmentUrl: Option<string>,
    attachmentName: Option<string>,
    isRead: bool,
    deleted: bool)

  /** What toConversationVO shows the current user (the other user's profile and
      the timestamps are not modelled). */
  datatype ConversationView = ConversationView(
    id: nat,
    typeCode: int,
    otherUserId: nat,
    orderId: Option<nat>,
    projectId: Option<nat>,
    lastMessageContent: Option<string>,
    unreadCount: int)

  const PreviewLimit := 100

  /** The last-message preview sendMessage stores: the content itself when it has
      at most 100 UTF-16 units, else its longest prefix within 100 units and "...". */
  function Preview(content: string): (r: string)
    ensures JavaLength(content) <= PreviewLimit ==> r == content
    ensures JavaLength(content) > PreviewLimit ==>
      |r| >= 3 && r[|r| - 3..] == "..." && r[..|r| - 3] <= content
      && PreviewLimit - 1 <= JavaLength(r[..|r| - 3]) <= PreviewLimit
    ensures JavaLength(content) > PreviewLimit && (forall i :: 0 <= i < |content| ==> content[i] <= '\U{FFFF}') ==>
      r == content[..PreviewLimit] + "..."
  {
    if JavaLength(content) > PreviewLimit then
      var p := JavaPrefix(content, PreviewLimit);
      assert (p + "...")[..|p|] == p;
      JavaPrefixPlain(content, PreviewLimit);
      p + "..."
    else content
  }

  predicate IsParticipant(c: Conversation, userId: nat)
  {
    c.participant1Id == userId || c.participant2Id == userId
  }

  /** The pair of users of a live private conversation, in either order. */
  predicate PrivateBetween(c: Conversation, u1: nat, u2: nat)
  {
    c.convType == Private && !c.deleted
    && ((c.participant1Id == u1 && c.participant2Id == u2) || (c.participant1Id == u2 && c.participant2Id == u1))
  }

  /** findPrivateConversation over rows[i..]: the first live private conversation
      of the two users. */
  function FindPrivateFrom(rows: seq<Conversation>, u1: nat, u2: nat, i: nat): (r: Option<nat>)
    requires i <= |rows|
    ensures r.Some? ==> i <= r.value < |rows| && PrivateBetween(rows[r.value], u1, u2)
    ensures r.Some? ==> forall j :: i <= j < r.value ==> !PrivateBetween(rows[j], u1, u2)
    ensures r.None? <==> forall j :: i <= j < |rows| ==> !PrivateBetween(rows[j], u1, u2)
    decreases |rows| - i
  {
    if i == |rows| then None
    else if PrivateBetween(rows[i], u1, u2) then Some(i)
    else FindPrivateFrom(rows, u1, u2, i + 1)
  }

  function FindPrivate(rows: seq<Conversation>, u1: nat, u2: nat): Option<nat>
  {
    FindPrivateFrom(rows, u1, u2, 0)
  }

  /** The lookup does not depend on which of the two users asks. */
  lemma {:induction false} FindPrivateSymmetric(rows: seq<Conversation>, u1: nat, u2: nat, i: nat)
    requires i <= |rows|
    ensures FindPrivateFrom(rows, u1, u2, i) == FindPrivateFrom(rows, u2, u1, i)
    decreases |rows| - i
  {
    if i < |rows| {
      assert PrivateBetween(rows[i], u1, u2) == PrivateBetween(rows[i], u2, u1);
      FindPrivateSymmetric(rows, u1, u2, i + 1);
    }
  }

  predicate OrderChatOf(c: Conversation, orderId: nat)
  {
    c.convType == OrderChat && c.orderId == Some(orderId) && !c.deleted
  }

  /** findByOrderId over rows[i..]: the first live order conversation of the order. */
  function FindByOrderFrom(rows: seq<Conversation>, orderId: nat, i: nat): (r: Option<nat>)
    requires i <= |rows|
    ensures r.Some? ==> i <= r.value < |rows| && OrderChatOf(rows[r.value], orderId)
    ensures r.None? <==> forall j :: i <= j < |rows| ==> !OrderChatOf(rows[j], orderId)
    decreases |rows| - i
  {
    if i == |rows| then None
    else if OrderChatOf(rows[i], orderId) then Some(i)
    else FindByOrderFrom(rows, orderId, i + 1)
  }

  function FindByOrder(rows: seq<Conversation>, orderId: nat): Option<nat>
  {
    FindByOrderFrom(rows, orderId, 0)
  }

  /** A private conversation as getOrCreatePrivateConversationEntity inserts it. */
  function NewPrivate(u1: nat, u2: nat): (c: Conversation)
    ensures c.convType == Private && c.participant1Id == u1 && c.participant2Id == u2
    ensures c.participant1Unread == Some(0) && c.participant2Unread == Some(0)
    ensures c.orderId.None? && c.lastMessageId.None? && !c.deleted
  {
    Conversation(Private, u1, u2, None, None, None, None, Some(0), Some(0), false)
  }

  /** An order conversation as getOrCreateOrderConversation inserts it: the
      employer in the first slot, the developer in the second. */
  function NewOrderChat(order: O.Order, orderId: nat): (c: Conversation)
    ensures c.convType == OrderChat && c.orderId == Some(orderId) && c.projectId == Some(order.projectId)
    ensures c.participant1Id == order.employerId && c.participant2Id == order.developerId
    ensures c.participant1Unread == Some(0) && c.participant2Unread == Some(0)
    ensures c.lastMessageId.None? && !c.deleted
  {
    Conversation(OrderChat, order.employerId, order.developerId, Some(orderId), Some(order.projectId),
                 None, None, Some(0), Some(0), false)
  }

  /** `SET unread = unread + 1`: a NULL column stays NULL. */
  function Inc(u: Option<int>): (r: Option<int>)
    ensures r.Some? <==> u.Some?
    ensures u.Some? ==> r.value == u.value + 1
  {
    if u.Some? then Some(u.value + 1) else None
  }

  /** The unread count toConversationVO shows `userId`: the first slot's when
      `userId` is the first participant, else the second slot's, NULL as 0. */
  function UnreadFor(c: Conversation, userId: nat): (n: int)
    ensures c.participant1Id == userId ==> n == (if c.participant1Unread.Some? then c.participant1Unread.value else 0)
    ensures c.participant1Id != userId ==> n == (if c.participant2Unread.Some? then c.participant2Unread.value else 0)
  {
    var slot := if c.participant1Id == userId then c.participant1Unread else c.participant2Unread;
    if slot.Some? then slot.value else 0
  }

  /** The other user toConversationVO shows: the second participant when the
      current user is the first, else the first. */
  function OtherUser(c: Conversation, userId: nat): (o: nat)
    ensures IsParticipant(c, o)
    ensures IsParticipant(c, userId) && c.participant1Id != c.participant2Id ==> o != userId
  {
    if c.participant1Id == userId then c.participant2Id else c.participant1Id
  }

  function ToView(c: Conversation, id: nat, userId: nat): (v: ConversationView)
    ensures v.id == id && v.typeCode == c.convType.Code() && v.orderId == c.orderId
    ensures v.otherUserId == OtherUser(c, userId) && v.unreadCount == UnreadFor(c, userId)
    ensures v.lastMessageContent == c.lastMessageContent
  {
    ConversationView(id, c.convType.Code(), OtherUser(c, userId), c.orderId, c.projectId,
                     c.lastMessageContent, UnreadFor(c, userId))
  }

  /** The conversation after a message to `receiverId`: the first slot is
      incremented when the receiver is the first participant, else the second. */
  function Bumped(c: Conversation, receiverId: nat): Conversation
  {
    if c.participant1Id == receiverId then c.(participant1Unread := Inc(c.participant1Unread))
    else c.(participant2Unread := Inc(c.participant2Unread))
  }

  /** Sending raises the receiver's count by one and leaves the sender's alone,
      when the two are the conversation's two distinct participants. */
  lemma BumpedRaisesOnlyReceiver(c: Conversation, senderId: nat, receiverId: nat)
    requires IsParticipant(c, senderId) && IsParticipant(c, receiverId) && senderId != receiverId
    requires c.participant1Unread.Some? && c.participant2Unread.Some?
    ensures UnreadFor(Bumped(c, receiverId), receiverId) == UnreadFor(c, receiverId) + 1
    ensures UnreadFor(Bumped(c, receiverId), senderId) == UnreadFor(c, senderId)
    ensures Bumped(c, receiverId).(participant1Unread := c.participant1Unread, participant2Unread := c.participant2Unread) == c
  {
  }

  /** The conversation after `userId` reads it: only that user's slot is zeroed,
      and nothing changes for a conversation that is deleted or not the user's. */
  function Cleared(c: Conversation, userId: nat): Conversation
  {
    if c.deleted then c
    else if c.participant1Id == userId then c.(participant1Unread := Some(0))
    else if c.participant2Id == userId then c.(participant2Unread := Some(0))
    else c
  }

  lemma ClearedZeroesOnlyReader(c: Conversation, userId: nat, otherId: nat)
    requires !c.deleted && IsParticipant(c, userId) && otherId != userId
    ensures UnreadFor(Cleared(c, userId), userId) == 0
    ensures IsParticipant(c, otherId) ==> UnreadFor(Cleared(c, userId), otherId) == UnreadFor(c, otherId)
  {
  }

  lemma ClearedOutsider(c: Conversation, userId: nat)
    requires c.deleted || !IsParticipant(c, userId)
    ensures Cleared(c, userId) == c
  {
  }

  /** The messages of `userId` in conversation `cid` that markAsReadByConversation
      selects. */
  predicate UnreadIn(m: Message, cid: nat, userId: nat)
  {
    m.conversationId == cid && m.receiverId == userId && !m.isRead && !m.deleted
  }

  /** markAsReadByConversation: each selected message becomes read, the others are
      kept. */
  function MarkedRead(rows: seq<Message>, cid: nat, userId: nat): (r: seq<Message>)
    ensures |r| == |rows|
    ensures forall i :: 0 <= i < |rows| ==> r[i] == rows[i].(isRead := rows[i].isRead || UnreadIn(rows[i], cid, userId))
    ensures forall i :: 0 <= i < |r| ==> !UnreadIn(r[i], cid, userId)
    ensures forall i :: 0 <= i < |rows| && !UnreadIn(rows[i], cid, userId) ==> r[i] == rows[i]
  {
    seq(|rows|, i requires 0 <= i < |rows| => if UnreadIn(rows[i], cid, userId) then rows[i].(isRead := true) else rows[i])
  }

  /** countUnreadByUserId over rows[..n]. */
  function CountUnread(rows: seq<Message>, userId: nat, n: nat): (c: nat)
    requires n <= |rows|
    ensures c <= n
    ensures c == 0 <==> forall i :: 0 <= i < n ==> !(rows[i].receiverId == userId && !rows[i].isRead && !rows[i].deleted)
  {
    if n == 0 then 0
    else
      var m := rows[n - 1];
      CountUnread(rows, userId, n - 1) + (if m.receiverId == userId && !m.isRead && !m.deleted then 1 else 0)
  }

  /** The user's unread live messages of conversation `cid` in rows[..n]. */
  function CountUnreadIn(rows: seq<Message>, cid: nat, userId: nat, n: nat): nat
    requires n <= |rows|
  {
    if n == 0 then 0
    else CountUnreadIn(rows, cid, userId, n - 1) + (if UnreadIn(rows[n - 1], cid, userId) then 1 else 0)
  }

  /** After a user has read a conversation, the user's unread messages are exactly
      those in other conversations: the count drops by that conversation's unread
      messages, and none of them are left. */
  lemma {:induction false} MarkedReadCount(rows: seq<Message>, cid: nat, userId: nat, n: nat)
    requires n <= |rows|
    ensures CountUnread(MarkedRead(rows, cid, userId), userId, n) + CountUnreadIn(rows, cid, userId, n)
            == CountUnread(rows, userId, n)
    ensures CountUnreadIn(MarkedRead(rows, cid, userId), cid, userId, n) == 0
    ensures (forall i :: 0 <= i < n ==> rows[i].conversationId == cid || rows[i].receiverId != userId)
            ==> CountUnread(MarkedRead(rows, cid, userId), userId, n) == 0
  {
    if n > 0 {
      MarkedReadCount(rows, cid, userId, n - 1);
    }
  }

  /** findByConversationId over rows[..n]: the ids of the live messages of the
      conversation, newest first. */
  function NewestFirst(rows: seq<Message>, cid: nat, n: nat): (ids: seq<nat>)
    requires n <= |rows|
    ensures forall k :: 0 <= k < |ids| ==> ids[k] < n && rows[ids[k]].conversationId == cid && !rows[ids[k]].deleted
    ensures forall k, l :: 0 <= k < l < |ids| ==> ids[k] > ids[l]
  {
    if n == 0 then []
    else
      var m := rows[n - 1];
      (if m.conversationId == cid && !m.deleted then [n - 1] else []) + NewestFirst(rows, cid, n - 1)
  }

  /** Every live message of the conversation is listed. */
  lemma {:induction false} NewestFirstComplete(rows: seq<Message>, cid: nat, n: nat, i: nat)
    requires i < n <= |rows| && rows[i].conversationId == cid && !rows[i].deleted
    ensures i in NewestFirst(rows, cid, n)
  {
    if i < n - 1 {
      NewestFirstComplete(rows, cid, n - 1, i);
    }
  }

  /** The conversation table after sendMessage's get-or-create step and the id of
      the conversation used: the order's conversation when an order is named
      (created for an existing order row when missing), else the users' private
      conversation (created with the sender first when missing). */
  function Opened(rows: seq<Conversation>, orderRows: seq<O.Order>, actor: nat, receiverId: nat,
                  orderId: Option<nat>): (r: Result<(seq<Conversation>, nat)>)
    ensures r.Err? <==> orderId.Some? && FindByOrder(rows, orderId.value).None? && orderId.value >= |orderRows|
    ensures r.Err? ==> r.error == OrderNotFound
    ensures r.Ok? ==> |rows| <= |r.value.0| <= |rows| + 1 && r.value.1 < |r.value.0| && r.value.0[..|rows|] == rows
    ensures r.Ok? && orderId.Some? ==> OrderChatOf(r.value.0[r.value.1], orderId.value)
    ensures r.Ok? && orderId.None? ==> PrivateBetween(r.value.0[r.value.1], actor, receiverId)
    ensures r.Ok? && |r.value.0| == |rows| + 1 ==>
      r.value.1 == |rows| && r.value.0[|rows|].participant1Unread == Some(0) && r.value.0[|rows|].participant2Unread == Some(0)
  {
    if orderId.Some? then
      var f := FindByOrder(rows, orderId.value);
      if f.Some? then Ok((rows, f.value))
      else if orderId.value >= |orderRows| then Err(OrderNotFound)
      else Ok((rows + [NewOrderChat(orderRows[orderId.value], orderId.value)], |rows|))
    else
      var f := FindPrivate(rows, actor, receiverId);
      if f.Some? then Ok((rows, f.value))
      else Ok((rows + [NewPrivate(actor, receiverId)], |rows|))
  }

  /** The conversation once message `messageId` to `receiverId` is in it. */
  function Delivered(c: Conversation, receiverId: nat, messageId: nat, content: string): (d: Conversation)
    ensures d.lastMessageId == Some(messageId) && d.lastMessageContent == Some(Preview(content))
    ensures d.participant1Id == c.participant1Id && d.participant2Id == c.participant2Id && d.deleted == c.deleted
  {
    Bumped(c, receiverId).(lastMessageId := Some(messageId), lastMessageContent := Some(Preview(content)))
  }

  /** A message raises the receiver's count by one and no other, when the sender
      and the receiver are the conversation's two participants. */
  lemma DeliveredRaisesOnlyReceiver(c: Conversation, senderId: nat, receiverId: nat, messageId: nat, content: string)
    requires IsParticipant(c, senderId) && IsParticipant(c, receiverId) && senderId != receiverId
    requires c.participant1Unread.Some? && c.participant2Unread.Some?
    ensures UnreadFor(Delivered(c, receiverId, messageId, content), receiverId) == UnreadFor(c, receiverId) + 1
    ensures UnreadFor(Delivered(c, receiverId, messageId, content), senderId) == UnreadFor(c, senderId)
  {
    BumpedRaisesOnlyReceiver(c, senderId, receiverId);
  }

  class ConversationRepository {
    var rows: seq<Conversation>

    /** Unread counters are never negative. */
    ghost predicate Valid()
      reads this
    {
      forall i :: 0 <= i < |rows| ==>
        (rows[i].participant1Unread.Some? ==> rows[i].participant1Unread.value >= 0)
        && (rows[i].participant2Unread.Some? ==> rows[i].participant2Unread.value >= 0)
    }

    constructor()
      ensures rows == [] && Valid()
    {
      rows := [];
    }
  }

  class MessageRepository {
    var rows: seq<Message>

    constructor()
      ensures rows == []
    {
      rows := [];
    }
  }

  class MessageService {
    const conversations: ConversationRepository
    const messages: MessageRepository
    const orders: OrderRepository

    constructor(conversations: ConversationRepository, messages: MessageRepository, orders: OrderRepository)
      ensures this.conversations == conversations && this.messages == messages && this.orders == orders
    {
      this.conversations := conversations;
      this.messages := messages;
      this.orders := orders;
    }

    /** getOrCreatePrivateConversationEntity: reuse the users' private
        conversation, or insert a new one with `u1` in the first slot. */
    method GetOrCreatePrivate(u1: nat, u2: nat) returns (id: nat)
      requires conversations.Valid()
      modifies conversations
      ensures conversations.Valid()
      ensures id < |conversations.rows| && PrivateBetween(conversations.rows[id], u1, u2)
      ensures FindPrivate(old(conversations.rows), u1, u2).Some? ==>
        id == FindPrivate(old(conversations.rows), u1, u2).value && conversations.rows == old(conversations.rows)
      ensures FindPrivate(old(conversations.rows), u1, u2).None? ==>
        id == |old(conversations.rows)| && conversations.rows == old(conversations.rows) + [NewPrivate(u1, u2)]
    {
      var found := FindPrivate(conversations.rows, u1, u2);
      if found.Some? {
        return found.value;
      }
      id := |conversations.rows|;
      conversations.rows := conversations.rows + [NewPrivate(u1, u2)];
    }

    /** getOrCreateOrderConversation: reuse the order's conversation, or insert one
        for an existing order row. */
    method GetOrCreateOrderChat(orderId: nat) returns (r: Result<nat>)
      requires conversations.Valid()
      modifies conversations
      ensures conversations.Valid()
      ensures r.Err? <==> FindByOrder(old(conversations.rows), orderId).None? && orderId >= |orders.rows|
      ensures r.Err? ==> r.error == OrderNotFound && conversations.rows == old(conversations.rows)
      ensures r.Ok? ==> r.value < |conversations.rows| && OrderChatOf(conversations.rows[r.value], orderId)
      ensures FindByOrder(old(conversations.rows), orderId).Some? ==>
        r == Ok(FindByOrder(old(conversations.rows), orderId).value) && conversations.rows == old(conversations.rows)
      ensures FindByOrder(old(conversations.rows), orderId).None? && orderId < |orders.rows| ==>
        r == Ok(|old(conversations.rows)|)
        && conversations.rows == old(conversations.rows) + [NewOrderChat(orders.rows[orderId], orderId)]
    {
      var found := FindByOrder(conversations.rows, orderId);
      if found.Some? {
        return Ok(found.value);
      }
      if orderId >= |orders.rows| {
        return Err(OrderNotFound);
      }
      var id := |conversations.rows|;
      conversations.rows := conversations.rows + [NewOrderChat(orders.rows[orderId], orderId)];
      r := Ok(id);
    }

    /** The conversation sendMessage writes into: the order's conversation when
        the message names an order, else the private one of the two users,
        created when missing. */
    method OpenConversation(actor: nat, receiverId: nat, orderId: Option<nat>) returns (r: Result<nat>)
      requires conversations.Valid()
      modifies conversations
      ensures conversations.Valid()
      ensures var attempt := Opened(old(conversations.rows), orders.rows, actor, receiverId, orderId);
        (r.Err? <==> attempt.Err?)
        && (r.Err? ==> r.error == attempt.error && conversations.rows == old(conversations.rows))
        && (r.Ok? ==> conversations.rows == attempt.value.0 && r.value == attempt.value.1)
    {
      if orderId.Some? {
        r := GetOrCreateOrderChat(orderId.value);
      } else {
        var cid := GetOrCreatePrivate(actor, receiverId);
        r := Ok(cid);
      }
    }

    /** sendMessage from `actor`. The request is validated before the call:
        non-blank content of at most 5000 UTF-16 units. */
    method SendMessage(actor: nat, receiverId: nat, msgType: Option<int>, content: string,
                       attachmentUrl: Option<string>, attachmentName: Option<string>,
                       orderId: Option<nat>) returns (r: Result<nat>)
      requires conversations.Valid() && NotBlank(content) && JavaLength(content) <= 5000
      modifies conversations, messages
      ensures conversations.Valid()
      ensures var attempt := Opened(old(conversations.rows), orders.rows, actor, receiverId, orderId);
        (r.Ok? <==> actor != receiverId && attempt.Ok?)
        && (r.Err? ==> r.error == (if actor == receiverId then BadRequest else attempt.error)
                       && conversations.rows == old(conversations.rows) && messages.rows == old(messages.rows))
        && (r.Ok? ==>
              var table := attempt.value.0;
              var cid := attempt.value.1;
              r.value == |old(messages.rows)|
              && messages.rows == old(messages.rows) + [Message(cid, actor, receiverId, if msgType.Some? then msgType.value else 1,
                                                                content, attachmentUrl, attachmentName, false, false)]
              && conversations.rows == table[cid := Delivered(table[cid], receiverId, r.value, content)])
    {
      if actor == receiverId {
        return Err(BadRequest);
      }
      var conv := OpenConversation(actor, receiverId, orderId);
      if conv.Err? {
        return Err(conv.error);
      }
      var id := Post(Message(conv.value, actor, receiverId, if msgType.Some? then msgType.value else 1,
                             content, attachmentUrl, attachmentName, false, false));
      r := Ok(id);
    }

    /** The insert and the conversation update of sendMessage, once the
        conversation is open. */
    method Post(m: Message) returns (id: nat)
      requires conversations.Valid() && m.conversationId < |conversations.rows|
      modifies conversations, messages
      ensures conversations.Valid()
      ensures id == |old(messages.rows)| && messages.rows == old(messages.rows) + [m]
      ensures conversations.rows == old(conversations.rows)[m.conversationId :=
                Delivered(old(conversations.rows)[m.conversationId], m.receiverId, id, m.content)]
    {
      id := |messages.rows|;
      messages.rows := messages.rows + [m];
      conversations.rows := conversations.rows[m.conversationId :=
                              Delivered(conversations.rows[m.conversationId], m.receiverId, id, m.content)];
    }

    /** The participant check getConversationMessages, getConversation and
        getOrderConversation share. */
    method CheckParticipant(actor: nat, id: nat) returns (r: Option<ErrorCode>)
      ensures r.None? <==> id < |conversations.rows| && IsParticipant(conversations.rows[id], actor)
      ensures r.Some? ==> r.value == if id >= |conversations.rows| then NotFound else Forbidden
    {
      if id >= |conversations.rows| {
        return Some(NotFound);
      }
      if !IsParticipant(conversations.rows[id], actor) {
        return Some(Forbidden);
      }
      r := None;
    }

    /** getConversationMessages, without the paging: the conversation's live
        messages, newest first, for a participant only. */
    method GetConversationMessages(actor: nat, id: nat) returns (r: Result<seq<nat>>)
      ensures r.Ok? <==> id < |conversations.rows| && IsParticipant(conversations.rows[id], actor)
      ensures r.Err? ==> r.error == if id >= |conversations.rows| then NotFound else Forbidden
      ensures r.Ok? ==> r.value == NewestFirst(messages.rows, id, |messages.rows|)
    {
      var denied := CheckParticipant(actor, id);
      if denied.Some? {
        return Err(denied.value);
      }
      r := Ok(NewestFirst(messages.rows, id, |messages.rows|));
    }

    /** getConversation. */
    method GetConversation(actor: nat, id: nat) returns (r: Result<ConversationView>)
      ensures r.Ok? <==> id < |conversations.rows| && IsParticipant(conversations.rows[id], actor)
      ensures r.Err? ==> r.error == if id >= |conversations.rows| then NotFound else Forbidden
      ensures r.Ok? ==> r.value == ToView(conversations.rows[id], id, actor)
    {
      var denied := CheckParticipant(actor, id);
      if denied.Some? {
        return Err(denied.value);
      }
      r := Ok(ToView(conversations.rows[id], id, actor));
    }

    /** getOrderConversation: nothing is created here. */
    method GetOrderConversation(actor: nat, orderId: nat) returns (r: Result<ConversationView>)
      ensures var found := FindByOrder(conversations.rows, orderId);
        (r.Ok? <==> found.Some? && IsParticipant(conversations.rows[found.value], actor))
        && (r.Err? ==> r.error == if found.None? then NotFound else Forbidden)
        && (r.Ok? ==> r.value == ToView(conversations.rows[found.value], found.value, actor))
    {
      var found := FindByOrder(conversations.rows, orderId);
      if found.None? {
        return Err(NotFound);
      }
      var c := conversations.rows[found.value];
      if !IsParticipant(c, actor) {
        return Err(Forbidden);
      }
      r := Ok(ToView(c, found.value, actor));
    }

    /** getOrCreatePrivateConversation with `userId`. */
    method GetOrCreatePrivateConversation(actor: nat, userId: nat) returns (r: Result<ConversationView>)
      requires conversations.Valid()
      modifies conversations
      ensures conversations.Valid()
      ensures r.Err? <==> actor == userId
      ensures r.Err? ==> r.error == BadRequest && conversations.rows == old(conversations.rows)
      ensures r.Ok? ==> r.value.otherUserId == userId && r.value.typeCode == Private.Code()
      ensures r.Ok? && FindPrivate(old(conversations.rows), actor, userId).None? ==>
        r.value.unreadCount == 0 && conversations.rows == old(conversations.rows) + [NewPrivate(actor, userId)]
      ensures r.Ok? && FindPrivate(old(conversations.rows), actor, userId).Some? ==>
        conversations.rows == old(conversations.rows)
    {
      if actor == userId {
        return Err(BadRequest);
      }
      var id := GetOrCreatePrivate(actor, userId);
      r := Ok(ToView(conversations.rows[id], id, actor));
    }

    /** getUnreadCount. */
    method GetUnreadCount(actor: nat) returns (n: nat)
      ensures n == CountUnread(messages.rows, actor, |messages.rows|)
      ensures n == 0 <==> forall i :: 0 <= i < |messages.rows| ==>
        !(messages.rows[i].receiverId == actor && !messages.rows[i].isRead && !messages.rows[i].deleted)
    {
      n := CountUnread(messages.rows, actor, |messages.rows|);
    }

    /** markConversationAsRead by `actor`: the actor's messages in it become read
        and the actor's counter is cleared. A missing conversation is ignored. */
    method MarkConversationAsRead(actor: nat, id: nat)
      requires conversations.Valid()
      modifies conversations, messages
      ensures conversations.Valid()
      ensures id >= |old(conversations.rows)| ==>
        conversations.rows == old(conversations.rows) && messages.rows == old(messages.rows)
      ensures id < |old(conversations.rows)| ==>
        messages.rows == MarkedRead(old(messages.rows), id, actor)
        && conversations.rows == old(conversations.rows)[id := Cleared(old(conversations.rows)[id], actor)]
    {
      if id >= |conversations.rows| {
        return;
      }
      messages.rows := MarkedRead(messages.rows, id, actor);
      conversations.rows := conversations.rows[id := Cleared(conversations.rows[id], actor)];
    }
  }

  /** Reading a conversation after a message to you leaves your count at zero. */
  lemma SendThenReadClears(c: Conversation, senderId: nat, receiverId: nat)
    requires !c.deleted && IsParticipant(c, receiverId)
    ensures UnreadFor(Cleared(Bumped(c, receiverId), receiverId), receiverId) == 0
  {
  }
}
