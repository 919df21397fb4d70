/** The message side: protocol categories, the test message protocol with its
    nature/category/group/domain table, the message-type tables and the
    `Message.createMessage` factories. */
module MessageTypes {
  import opened Outcomes
  import opened JavaText
  import opened EnumLookup
  import opened JavaNumbers

  /** Whether a message asks, answers or just informs. */
  datatype MessageProtocolNature = Request | Reply | Notification

  /** Who may use a message type. `Unrestricted` is the constant named NONE. */
  datatype MessageUsageType = Unrestricted | ServerOnly | ClientOnly

  /** The status carried by a reply. */
  datatype MessageResponseStatus = StatusOk | StatusRejected | StatusFailed

  /** The content classes the message-type tables name. */
  datatype ContentClass = DefaultMessageData | FakeMessageData

  /** The seven message protocol categories. */
  datatype MessageProtocolCategory = System | Security | Authentication | Application | Batch | Audit | Info

  function MessageCategoryName(x: MessageProtocolCategory): string {
    match x
    case System => "SYSTEM"
    case Security => "SECURITY"
    case Authentication => "AUTHENTICATION"
    case Application => "APPLICATION"
    case Batch => "BATCH"
    case Audit => "AUDIT"
    case Info => "INFO"
  }

  /** The constants of `MessageProtocolCategory` in declaration order. */
  const MessageCategoryValues: seq<MessageProtocolCategory> :=
    [MessageProtocolCategory.System, MessageProtocolCategory.Security, MessageProtocolCategory.Authentication, MessageProtocolCategory.Application, MessageProtocolCategory.Batch, MessageProtocolCategory.Audit, MessageProtocolCategory.Info]

  lemma MessageCategoryTable()
    ensures WellFormedTable(MessageCategoryValues, MessageCategoryName)
  {
    forall x: MessageProtocolCategory ensures x in MessageCategoryValues {
      assert x.System? || x.Security? || x.Authentication? || x.Application? || x.Batch? || x.Audit? || x.Info?;
    }
    MessageCategoryKeysShaped();
    MessageCategoryKeysUnique();
  }

  /** Every name of the table is a constant key. */
  lemma MessageCategoryKeysShaped()
    ensures forall k :: 0 <= k < |MessageCategoryValues| ==> IsConstantKey(MessageCategoryName(MessageCategoryValues[k]))
  {
  }

  /** No two constants of the table share a name. */
  lemma MessageCategoryKeysUnique()
    ensures KeysUnique(MessageCategoryValues, MessageCategoryName)
  {
  }

  /** `MessageProtocolCategory.fromString`. */
  function MessageCategoryFromString(value: Option<string>): (r: Result<MessageProtocolCategory, LookupError>)
    ensures r.Success? ==> value.Some? && EqualsIgnoreCase(MessageCategoryName(r.value), value.value)
    ensures r == Failure(BlankArgument) <==> IsBlank(value)
  {
    Lookup(MessageCategoryValues, MessageCategoryName, value)
  }

  /** Any letter-case spelling of a constant's name finds that constant. */
  lemma MessageCategoryFromStringName(x: MessageProtocolCategory, text: string)
    requires EqualsIgnoreCase(text, MessageCategoryName(x))
    ensures MessageCategoryFromString(Some(text)) == Success(x)
  {
    MessageCategoryTable();
    LookupTableKey(MessageCategoryValues, MessageCategoryName, x, text);
  }

  /** The lookup raises exactly on a blank argument or an unknown name. */
  lemma MessageCategoryFromStringFails(value: Option<string>)
    ensures MessageCategoryFromString(value).Failure? <==>
      IsBlank(value) || forall x: MessageProtocolCategory :: !EqualsIgnoreCase(value.value, MessageCategoryName(x))
  {
    MessageCategoryTable();
    LookupTableFails(MessageCategoryValues, MessageCategoryName, value);
  }

  /** The groups of the test message protocol. */
  datatype TestMessageProtocolGroup = Chat | Message

  function MessageGroupName(x: TestMessageProtocolGroup): string {
    match x
    case Chat => "CHAT"
    case Message => "MESSAGE"
  }

  /** The constants of `TestMessageProtocolGroup` in declaration order. */
  const MessageGroupValues: seq<TestMessageProtocolGroup> :=
    [TestMessageProtocolGroup.Chat, TestMessageProtocolGroup.Message]

  lemma MessageGroupTable()
    ensures WellFormedTable(MessageGroupValues, MessageGroupName)
  {
    forall x: TestMessageProtocolGroup ensures x in MessageGroupValues {
      assert x.Chat? || x.Message?;
    }
    MessageGroupKeysShaped();
    MessageGroupKeysUnique();
  }

  /** Every name of the table is a constant key. */
  lemma MessageGroupKeysShaped()
    ensures forall k :: 0 <= k < |MessageGroupValues| ==> IsConstantKey(MessageGroupName(MessageGroupValues[k]))
  {
  }

  /** No two constants of the table share a name. */
  lemma MessageGroupKeysUnique()
    ensures KeysUnique(MessageGroupValues, MessageGroupName)
  {
  }

  /** `TestMessageProtocolGroup.fromString`. */
  function MessageGroupFromString(value: Option<string>): (r: Result<TestMessageProtocolGroup, LookupError>)
    ensures r.Success? ==> value.Some? && EqualsIgnoreCase(MessageGroupName(r.value), value.value)
    ensures r == Failure(BlankArgument) <==> IsBlank(value)
  {
    Lookup(MessageGroupValues, MessageGroupName, value)
  }

  /** Any letter-case spelling of a constant's name finds that constant. */
  lemma MessageGroupFromStringName(x: TestMessageProtocolGroup, text: string)
    requires EqualsIgnoreCase(text, MessageGroupName(x))
    ensures MessageGroupFromString(Some(text)) == Success(x)
  {
    MessageGroupTable();
    LookupTableKey(MessageGroupValues, MessageGroupName, x, text);
  }

  /** The lookup raises exactly on a blank argument or an unknown name. */
  lemma MessageGroupFromStringFails(value: Option<string>)
    ensures MessageGroupFromString(value).Failure? <==>
      IsBlank(value) || forall x: TestMessageProtocolGroup :: !EqualsIgnoreCase(value.value, MessageGroupName(x))
  {
    MessageGroupTable();
    LookupTableFails(MessageGroupValues, MessageGroupName, value);
  }

  /** The domains of the test message protocol. */
  datatype TestMessageProtocolDomain = Lobby | Room | User | Conversation | Discussion

  function MessageDomainName(x: TestMessageProtocolDomain): string {
    match x
    case Lobby => "LOBBY"
    case Room => "ROOM"
    case User => "USER"
    case Conversation => "CONVERSATION"
    case Discussion => "DISCUSSION"
  }

  /** The constants of `TestMessageProtocolDomain` in declaration order. */
  const MessageDomainValues: seq<TestMessageProtocolDomain> :=
    [TestMessageProtocolDomain.Lobby, TestMessageProtocolDomain.Room, TestMessageProtocolDomain.User, TestMessageProtocolDomain.Conversation, TestMessageProtocolDomain.Discussion]

  lemma MessageDomainTable()
    ensures WellFormedTable(MessageDomainValues, MessageDomainName)
  {
    forall x: TestMessageProtocolDomain ensures x in MessageDomainValues {
      assert x.Lobby? || x.Room? || x.User? || x.Conversation? || x.Discussion?;
    }
    MessageDomainKeysShaped();
    MessageDomainKeysUnique();
  }

  /** Every name of the table is a constant key. */
  lemma MessageDomainKeysShaped()
    ensures forall k :: 0 <= k < |MessageDomainValues| ==> IsConstantKey(MessageDomainName(MessageDomainValues[k]))
  {
  }

  /** No two constants of the table share a name. */
  lemma MessageDomainKeysUnique()
    ensures KeysUnique(MessageDomainValues, MessageDomainName)
  {
  }

  /** `TestMessageProtocolDomain.fromString`. */
  function MessageDomainFromString(value: Option<string>): (r: Result<TestMessageProtocolDomain, LookupError>)
    ensures r.Success? ==> value.Some? && EqualsIgnoreCase(MessageDomainName(r.value), value.value)
    ensures r == Failure(BlankArgument) <==> IsBlank(value)
  {
    Lookup(MessageDomainValues, MessageDomainName, value)
  }

  /** Any letter-case spelling of a constant's name finds that constant. */
  lemma MessageDomainFromStringName(x: TestMessageProtocolDomain, text: string)
    requires EqualsIgnoreCase(text, MessageDomainName(x))
    ensures MessageDomainFromString(Some(text)) == Success(x)
  {
    MessageDomainTable();
    LookupTableKey(MessageDomainValues, MessageDomainName, x, text);
  }

  /** The lookup raises exactly on a blank argument or an unknown name. */
  lemma MessageDomainFromStringFails(value: Option<string>)
    ensures MessageDomainFromString(value).Failure? <==>
      IsBlank(value) || forall x: TestMessageProtocolDomain :: !EqualsIgnoreCase(value.value, MessageDomainName(x))
  {
    MessageDomainTable();
    LookupTableFails(MessageDomainValues, MessageDomainName, value);
  }


  /** The eighteen constants of the test message protocol. */
  datatype TestMessageProtocol =
    LobbyCreate | LobbyCreated | LobbyDelete | LobbyDeleted | LobbyJoin | LobbyJoined
    | LobbyLeave | LobbyLeft | LobbyList | LobbyListed | UserRegister | UserRegistered
    | UserUnregister | UserUnregistered | MessageSay | MessageSaid | MessageWhisper | MessageWhispered

  /** The nature column of the protocol table. */
  function Nature(p: TestMessageProtocol): MessageProtocolNature {
    match p
    case LobbyCreate => Request
    case LobbyCreated => Reply
    case LobbyDelete => Request
    case LobbyDeleted => Reply
    case LobbyJoin => Request
    case LobbyJoined => Reply
    case LobbyLeave => Request
    case LobbyLeft => Reply
    case LobbyList => Request
    case LobbyListed => Reply
    case UserRegister => Request
    case UserRegistered => Reply
    case UserUnregister => Request
    case UserUnregistered => Reply
    case MessageSay => Notification
    case MessageSaid => Notification
    case MessageWhisper => Notification
    case MessageWhispered => Notification
  }

  function ProtocolCategory(p: TestMessageProtocol): MessageProtocolCategory {
    MessageProtocolCategory.Application
  }

  function ProtocolGroup(p: TestMessageProtocol): TestMessageProtocolGroup {
    TestMessageProtocolGroup.Chat
  }

  /** The domain column. The MESSAGE_* constants name a domain constant MESSAGE
      that `TestMessageProtocolDomain` does not declare; they have none here. */
  function ProtocolDomain(p: TestMessageProtocol): Option<TestMessageProtocolDomain> {
    match p
    case LobbyCreate => Some(TestMessageProtocolDomain.Lobby)
    case LobbyCreated => Some(TestMessageProtocolDomain.Lobby)
    case LobbyDelete => Some(TestMessageProtocolDomain.Lobby)
    case LobbyDeleted => Some(TestMessageProtocolDomain.Lobby)
    case LobbyJoin => Some(TestMessageProtocolDomain.Lobby)
    case LobbyJoined => Some(TestMessageProtocolDomain.Lobby)
    case LobbyLeave => Some(TestMessageProtocolDomain.Lobby)
    case LobbyLeft => Some(TestMessageProtocolDomain.Lobby)
    case LobbyList => Some(TestMessageProtocolDomain.Lobby)
    case LobbyListed => Some(TestMessageProtocolDomain.Lobby)
    case UserRegister => Some(TestMessageProtocolDomain.User)
    case UserRegistered => Some(TestMessageProtocolDomain.User)
    case UserUnregister => Some(TestMessageProtocolDomain.User)
    case UserUnregistered => Some(TestMessageProtocolDomain.User)
    case MessageSay => None
    case MessageSaid => None
    case MessageWhisper => None
    case MessageWhispered => None
  }

  /** The past-tense reply that answers a request. */
  function Answer(p: TestMessageProtocol): Option<TestMessageProtocol> {
    match p
    case LobbyCreate => Some(LobbyCreated)
    case LobbyDelete => Some(LobbyDeleted)
    case LobbyJoin => Some(LobbyJoined)
    case LobbyLeave => Some(LobbyLeft)
    case LobbyList => Some(LobbyListed)
    case UserRegister => Some(UserRegistered)
    case UserUnregister => Some(UserUnregistered)
    case _ => None
  }

  /** `TestMessageProtocol.fromString` is a stub that returns null whatever it
      is given. */
  function TestProtocolFromString(value: Option<string>): (r: Option<TestMessageProtocol>)
    ensures r.None?
  {
    None
  }

  /** The table's shape: every request has a reply as its answer, the replies
      are exactly those answers, the MESSAGE_* constants are notifications, and
      every constant is an APPLICATION message of group CHAT. */
  lemma ProtocolTable(p: TestMessageProtocol)
    ensures Nature(p) == Request <==> Answer(p).Some?
    ensures Answer(p).Some? ==> Nature(Answer(p).value) == Reply
    ensures Nature(p) == Reply <==> exists q :: Answer(q) == Some(p)
    ensures Nature(p) == Notification <==> ProtocolDomain(p).None?
    ensures ProtocolCategory(p) == MessageProtocolCategory.Application
    ensures ProtocolGroup(p) == TestMessageProtocolGroup.Chat
  {
    if Nature(p) == Reply {
      var q := match p
        case LobbyCreated => LobbyCreate
        case LobbyDeleted => LobbyDelete
        case LobbyJoined => LobbyJoin
        case LobbyLeft => LobbyLeave
        case LobbyListed => LobbyList
        case UserRegistered => UserRegister
        case UserUnregistered => UserUnregister
        case _ => p;
      assert Answer(q) == Some(p);
    }
  }

  /** The default message types. `NoMessage` is the constant named NONE. */
  datatype DefaultMessageType = NoMessage | RegisterUser | QueryServerTime | QueryWho | StatusAfk

  function MessageTypeName(x: DefaultMessageType): string {
    match x
    case NoMessage => "NONE"
    case RegisterUser => "REGISTER_USER"
    case QueryServerTime => "QUERY_SERVER_TIME"
    case QueryWho => "QUERY_WHO"
    case StatusAfk => "STATUS_AFK"
  }

  /** The constants of `DefaultMessageType` in declaration order. */
  const MessageTypeValues: seq<DefaultMessageType> :=
    [DefaultMessageType.NoMessage, DefaultMessageType.RegisterUser, DefaultMessageType.QueryServerTime, DefaultMessageType.QueryWho, DefaultMessageType.StatusAfk]

  lemma MessageTypeTable()
    ensures WellFormedTable(MessageTypeValues, MessageTypeName)
  {
    forall x: DefaultMessageType ensures x in MessageTypeValues {
      assert x.NoMessage? || x.RegisterUser? || x.QueryServerTime? || x.QueryWho? || x.StatusAfk?;
    }
    MessageTypeKeysShaped();
    MessageTypeKeysUnique();
  }

  /** Every name of the table is a constant key. */
  lemma MessageTypeKeysShaped()
    ensures forall k :: 0 <= k < |MessageTypeValues| ==> IsConstantKey(MessageTypeName(MessageTypeValues[k]))
  {
  }

  /** No two constants of the table share a name. */
  lemma MessageTypeKeysUnique()
    ensures KeysUnique(MessageTypeValues, MessageTypeName)
  {
  }

  /** `DefaultMessageType.fromString`. */
  function MessageTypeFromString(value: Option<string>): (r: Result<DefaultMessageType, LookupError>)
    ensures r.Success? ==> value.Some? && EqualsIgnoreCase(MessageTypeName(r.value), value.value)
    ensures r == Failure(BlankArgument) <==> IsBlank(value)
  {
    Lookup(MessageTypeValues, MessageTypeName, value)
  }

  /** Any letter-case spelling of a constant's name finds that constant. */
  lemma MessageTypeFromStringName(x: DefaultMessageType, text: string)
    requires EqualsIgnoreCase(text, MessageTypeName(x))
    ensures MessageTypeFromString(Some(text)) == Success(x)
  {
    MessageTypeTable();
    LookupTableKey(MessageTypeValues, MessageTypeName, x, text);
  }

  /** The lookup raises exactly on a blank argument or an unknown name. */
  lemma MessageTypeFromStringFails(value: Option<string>)
    ensures MessageTypeFromString(value).Failure? <==>
      IsBlank(value) || forall x: DefaultMessageType :: !EqualsIgnoreCase(value.value, MessageTypeName(x))
  {
    MessageTypeTable();
    LookupTableFails(MessageTypeValues, MessageTypeName, value);
  }


  function MessageTypeUsage(t: DefaultMessageType): MessageUsageType {
    Unrestricted
  }

  /** The content class column; null is `None`. */
  function MessageTypeContent(t: DefaultMessageType): Option<ContentClass> {
    match t
    case NoMessage => None
    case StatusAfk => None
    case _ => Some(DefaultMessageData)
  }

  /** Every default message type is unrestricted; exactly NONE and STATUS_AFK
      carry no content class. */
  lemma MessageTypeAttributes(t: DefaultMessageType)
    ensures MessageTypeUsage(t) == Unrestricted
    ensures MessageTypeContent(t).None? <==> t == NoMessage || t == DefaultMessageType.StatusAfk
    ensures MessageTypeContent(t).Some? ==> MessageTypeContent(t).value == DefaultMessageData
  {
  }

  /** The message types of the test fixtures. */
  datatype FakeMessageProtocol = RegisterUser | QueryWho | StatusAfk

  function FakeTypeName(x: FakeMessageProtocol): string {
    match x
    case RegisterUser => "REGISTER_USER"
    case QueryWho => "QUERY_WHO"
    case StatusAfk => "STATUS_AFK"
  }

  /** The constants of `FakeMessageProtocol` in declaration order. */
  const FakeTypeValues: seq<FakeMessageProtocol> :=
    [FakeMessageProtocol.RegisterUser, FakeMessageProtocol.QueryWho, FakeMessageProtocol.StatusAfk]

  lemma FakeTypeTable()
    ensures WellFormedTable(FakeTypeValues, FakeTypeName)
  {
    forall x: FakeMessageProtocol ensures x in FakeTypeValues {
      assert x.RegisterUser? || x.QueryWho? || x.StatusAfk?;
    }
    FakeTypeKeysShaped();
    FakeTypeKeysUnique();
  }

  /** Every name of the table is a constant key. */
  lemma FakeTypeKeysShaped()
    ensures forall k :: 0 <= k < |FakeTypeValues| ==> IsConstantKey(FakeTypeName(FakeTypeValues[k]))
  {
  }

  /** No two constants of the table share a name. */
  lemma FakeTypeKeysUnique()
    ensures KeysUnique(FakeTypeValues, FakeTypeName)
  {
  }

  /** `FakeMessageProtocol.fromString`. */
  function FakeTypeFromString(value: Option<string>): (r: Result<FakeMessageProtocol, LookupError>)
    ensures r.Success? ==> value.Some? && EqualsIgnoreCase(FakeTypeName(r.value), value.value)
    ensures r == Failure(BlankArgument) <==> IsBlank(value)
  {
    Lookup(FakeTypeValues, FakeTypeName, value)
  }

  /** Any letter-case spelling of a constant's name finds that constant. */
  lemma FakeTypeFromStringName(x: FakeMessageProtocol, text: string)
    requires EqualsIgnoreCase(text, FakeTypeName(x))
    ensures FakeTypeFromString(Some(text)) == Success(x)
  {
    FakeTypeTable();
    LookupTableKey(FakeTypeValues, FakeTypeName, x, text);
  }

  /** The lookup raises exactly on a blank argument or an unknown name. */
  lemma FakeTypeFromStringFails(value: Option<string>)
    ensures FakeTypeFromString(value).Failure? <==>
      IsBlank(value) || forall x: FakeMessageProtocol :: !EqualsIgnoreCase(value.value, FakeTypeName(x))
  {
    FakeTypeTable();
    LookupTableFails(FakeTypeValues, FakeTypeName, value);
  }


  function FakeTypeUsage(t: FakeMessageProtocol): MessageUsageType {
    Unrestricted
  }

  function FakeTypeContent(t: FakeMessageProtocol): Option<ContentClass> {
    if t == FakeMessageProtocol.StatusAfk then None else Some(FakeMessageData)
  }

  /** Every fixture type is unrestricted; STATUS_AFK alone has no content class
      and the others use the fixture data class. */
  lemma FakeTypeAttributes(t: FakeMessageProtocol)
    ensures FakeTypeUsage(t) == Unrestricted
    ensures FakeTypeContent(t).None? <==> t == FakeMessageProtocol.StatusAfk
    ensures FakeTypeContent(t).Some? ==> FakeTypeContent(t).value == FakeMessageData
  {
  }

  /** A message: its protocol, an optional content, the message it answers,
      an optional response status and a correlation identifier. */
  datatype Message<C> = Message(
    protocol: TestMessageProtocol,
    content: Option<C>,
    original: Option<Message<C>>,
    status: Option<MessageResponseStatus>,
    correlationId: Int64)

  /** The status a factory keeps: the given one for a REPLY protocol, none
      otherwise. */
  function KeptStatus(p: TestMessageProtocol, status: Option<MessageResponseStatus>): (r: Option<MessageResponseStatus>)
    ensures r.Some? ==> Nature(p) == Reply && r == status
    ensures Nature(p) == Reply ==> r == status
  {
    if Nature(p) == Reply then status else None
  }

  /** `createMessage(protocol)`. */
  function CreateMessage<C>(p: TestMessageProtocol): (m: Message<C>)
    ensures m.protocol == p && m.content.None? && m.original.None?
    ensures m.status.None? && m.correlationId == 0
  {
    Message.Message(p, None, None, None, 0)
  }

  /** `createMessage(protocol, content)`: no status, correlation 0. */
  function CreateWithContent<C>(p: TestMessageProtocol, content: Option<C>): (m: Message<C>)
    ensures m.protocol == p && m.content == content && m.original.None?
    ensures m.status.None? && m.correlationId == 0
  {
    Message.Message(p, content, None, None, 0)
  }

  /** `createMessage(protocol, content, status, correlationId)`. */
  function CreateReply<C>(p: TestMessageProtocol, content: Option<C>, status: Option<MessageResponseStatus>, id: Int64): (m: Message<C>)
    ensures m.protocol == p && m.content == content && m.original.None? && m.correlationId == id
    ensures m.status.Some? ==> Nature(p) == Reply && m.status == status
    ensures Nature(p) == Reply ==> m.status == status
  {
    Message.Message(p, content, None, KeptStatus(p, status), id)
  }

  /** `createMessage(protocol, original, status, correlationId)`. */
  function CreateAnswer<C>(p: TestMessageProtocol, original: Option<Message<C>>, status: Option<MessageResponseStatus>, id: Int64): (m: Message<C>)
    ensures m.protocol == p && m.content.None? && m.original == original && m.correlationId == id
    ensures m.status.Some? ==> Nature(p) == Reply && m.status == status
    ensures Nature(p) == Reply ==> m.status == status
  {
    Message.Message(p, None, original, KeptStatus(p, status), id)
  }

  /** The four factories agree: the two-argument form is the four-argument one
      with no status and correlation 0, a status is dropped on anything but a
      reply, and answering a request with its reply protocol keeps the status. */
  lemma FactoriesAgree<C>(req: TestMessageProtocol, content: Option<C>, s: MessageResponseStatus, id: Int64)
    ensures CreateWithContent(req, content) == CreateReply(req, content, None, 0)
    ensures CreateMessage<C>(req) == CreateWithContent(req, None)
    ensures Nature(req) != Reply ==> CreateReply(req, content, Some(s), id) == CreateReply(req, content, None, id)
    ensures Answer(req).Some? ==>
      CreateAnswer(Answer(req).value, Some(CreateReply(req, content, Some(s), id)), Some(s), id).status == Some(s)
  {
    ProtocolTable(req);
  }
}
