/** The stored message, the reserved folders and the visibility rule (store/message.go). */
module Messages {

  datatype Option<+T> = None | Some(value: T)

  type Id = string

  /** An instant, in whatever unit the clock counts. */
  type Time = int

  const FOLDER_INBOX := "__inbox"
  const FOLDER_SENT := "__sent"
  const FOLDER_ARCHIVED := "__archived"
  const FOLDER_TRASH := "__trash"
  const FOLDER_SPAM := "__spam"
  const FOLDER_OUTBOX := "__outbox"
  const FOLDER_DRAFTS := "__drafts"

  predicate IsReservedFolder(folderId: string) {
    folderId in {FOLDER_INBOX, FOLDER_SENT, FOLDER_ARCHIVED, FOLDER_TRASH, FOLDER_SPAM, FOLDER_OUTBOX, FOLDER_DRAFTS}
  }

  /** A reserved folder, or a non-empty name without the reserved prefix. */
  predicate IsValidFolderId(folderId: string) {
    folderId != "" && (|folderId| >= 2 && folderId[..2] == "__" ==> IsReservedFolder(folderId))
  }

  /** By name: seven folders start with two underscores, and any other name must not. */
  lemma ValidFolderIff(folderId: string)
    ensures IsValidFolderId(folderId) <==>
            || folderId in {"__inbox", "__sent", "__archived", "__trash", "__spam", "__outbox", "__drafts"}
            || (folderId != "" && !("__" <= folderId))
  {
    if |folderId| >= 2 {
      assert folderId[..2] == "__" <==> "__" <= folderId;
    }
  }

  datatype Message = Message(
    id: Id,
    ownerId: string,
    senderId: string,
    recipientIds: seq<string>,
    subject: string,
    body: string,
    status: string,
    isRead: bool,
    readAt: Option<Time>,
    folderId: string,
    tags: seq<string>,
    attachments: seq<string>,
    threadId: string,
    replyToId: string,
    externalId: string,
    isDraft: bool,
    createdAt: Time,
    updatedAt: Time,
    expiresAt: Option<Time>,
    availableAt: Option<Time>)

  /** A message scheduled for later is hidden from queries. */
  predicate IsAvailable(m: Message, now: Time) {
    m.availableAt.None? || m.availableAt.value <= now
  }

  predicate IsSentByOwner(m: Message) {
    m.ownerId == m.senderId
  }

  /** The folder a message is restored to. */
  function DefaultFolder(m: Message): string {
    if IsSentByOwner(m) then FOLDER_SENT else FOLDER_INBOX
  }

  /** Every message is stored under its own ID. */
  predicate WellKeyed(ms: map<Id, Message>) {
    forall id :: id in ms ==> ms[id].id == id
  }

  /** The list without the first occurrence of a tag. */
  function WithoutFirst(tags: seq<string>, tagId: string): seq<string> {
    if tags == [] then [] else if tags[0] == tagId then tags[1..] else [tags[0]] + WithoutFirst(tags[1..], tagId)
  }
}
