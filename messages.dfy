/**
 * The runtime message protocol of src/modules/messages.mjs: three message
 * types that are distinct bits, command codes for session I/O and for UI edits,
 * one builder per message, and `validateMessage`.
 */
module Messages {
  import opened Wrappers
  import opened JsNumbers

  // MessageTypes
  const BH := 1
  const IO := 2
  const UI := 4

  // IOCommands
  const IO_NEW := 1001
  const IO_OPEN := 1002
  const IO_LOAD := 1003
  const IO_SAVE := 1004
  const IO_COMPLETE := 1005

  // UICommands
  const ADD_BH_NODE := 2001
  const EDIT_BH_NODE := 2002
  const EDIT_BH_NOTES := 2003
  const SWAP_BH_NODES := 2004
  const DELETE_BH_NODE := 2005
  const FREEZE_BH := 2006

  /** A node path as the UI holds it: numbers, possibly NaN when parsed from a class name. */
  type UiPath = seq<JsNumber>

  /** The `content` object of each kind of message; `Tree` and `File` are the payload types. */
  datatype Content<Tree, File> =
    | TreeContent(tree: Tree)
    | FileContent(file: File)
    | PathContent(path: UiPath)
    | EditContent(path: UiPath, title: string, url: string)
    | NotesContent(path: UiPath, notes: string)
    | SwapContent(srcPath: UiPath, dstPath: UiPath)

  /** A message object; an absent field is `None`. */
  datatype Message<Tree, File> =
    Message(msgType: Option<int>, command: Option<int>, content: Option<Content<Tree, File>>)

  function BuildBHMessage<Tree, File>(bunnyHoleJsObj: Tree): Message<Tree, File>
  {
    Message(Some(BH), None, Some(TreeContent(bunnyHoleJsObj)))
  }

  function BuildIONewMessage<Tree, File>(): Message<Tree, File>
  {
    Message(Some(IO), Some(IO_NEW), None)
  }

  function BuildIOOpenMessage<Tree, File>(file: File): Message<Tree, File>
  {
    Message(Some(IO), Some(IO_OPEN), Some(FileContent(file)))
  }

  function BuildIOLoadMessage<Tree, File>(): Message<Tree, File>
  {
    Message(Some(IO), Some(IO_LOAD), None)
  }

  function BuildIOSaveMessage<Tree, File>(): Message<Tree, File>
  {
    Message(Some(IO), Some(IO_SAVE), None)
  }

  function BuildUIAddMessage<Tree, File>(path: UiPath): Message<Tree, File>
  {
    Message(Some(UI), Some(ADD_BH_NODE), Some(PathContent(path)))
  }

  function BuildUIEditMessage<Tree, File>(path: UiPath, title: string, url: string): Message<Tree, File>
  {
    Message(Some(UI), Some(EDIT_BH_NODE), Some(EditContent(path, title, url)))
  }

  function BuildUINotesMessage<Tree, File>(path: UiPath, notes: string): Message<Tree, File>
  {
    Message(Some(UI), Some(EDIT_BH_NOTES), Some(NotesContent(path, notes)))
  }

  function BuildUIDeleteMessage<Tree, File>(path: UiPath): Message<Tree, File>
  {
    Message(Some(UI), Some(DELETE_BH_NODE), Some(PathContent(path)))
  }

  function BuildUISwapMessage<Tree, File>(srcPath: UiPath, dstPath: UiPath): Message<Tree, File>
  {
    Message(Some(UI), Some(SWAP_BH_NODES), Some(SwapContent(srcPath, dstPath)))
  }

  function BuildUIFreezeMessage<Tree, File>(): Message<Tree, File>
  {
    Message(Some(UI), Some(FREEZE_BH), None)
  }

  /** `a & b` on JavaScript numbers: both are taken modulo 2^32 and combined bit by bit. */
  function And32(a: int, b: int): bv32
  {
    (a % 0x1_0000_0000) as bv32 & (b % 0x1_0000_0000) as bv32
  }

  /**
   * `validateMessage(message, targetType)`: false without a `type` field,
   * false when the type shares a bit with `targetType`, true otherwise.
   */
  function ValidateMessage<Tree, File>(message: Message<Tree, File>, targetType: int): (ok: bool)
    ensures ok ==> message.msgType.Some?
  {
    if message.msgType.None? then false
    else And32(message.msgType.value, targetType) == 0
  }

  /** The calls a sender can make: one alternative per builder, with its arguments. */
  datatype Request<Tree, File> =
    | NewTree(tree: Tree)
    | IoNew | IoOpen(file: File) | IoLoad | IoSave
    | UiAdd(addPath: UiPath)
    | UiEdit(editPath: UiPath, title: string, url: string)
    | UiNotes(notesPath: UiPath, notes: string)
    | UiDelete(deletePath: UiPath)
    | UiSwap(srcPath: UiPath, dstPath: UiPath)
    | UiFreeze

  /** The message the corresponding builder returns. */
  function Build<Tree, File>(r: Request<Tree, File>): Message<Tree, File>
  {
    match r
    case NewTree(t) => BuildBHMessage(t)
    case IoNew => BuildIONewMessage()
    case IoOpen(f) => BuildIOOpenMessage(f)
    case IoLoad => BuildIOLoadMessage()
    case IoSave => BuildIOSaveMessage()
    case UiAdd(p) => BuildUIAddMessage(p)
    case UiEdit(p, title, url) => BuildUIEditMessage(p, title, url)
    case UiNotes(p, notes) => BuildUINotesMessage(p, notes)
    case UiDelete(p) => BuildUIDeleteMessage(p)
    case UiSwap(src, dst) => BuildUISwapMessage(src, dst)
    case UiFreeze => BuildUIFreezeMessage()
  }

  /**
   * A reference reading of a message: which builder made it, from its type and
   * command alone, with the arguments taken from its content.
   */
  ghost function Decode<Tree, File>(m: Message<Tree, File>): Option<Request<Tree, File>>
  {
    match (m.msgType, m.command, m.content)
    case (Some(1), None, Some(TreeContent(t))) => Some(NewTree(t))
    case (Some(2), Some(1001), None) => Some(IoNew)
    case (Some(2), Some(1002), Some(FileContent(f))) => Some(IoOpen(f))
    case (Some(2), Some(1003), None) => Some(IoLoad)
    case (Some(2), Some(1004), None) => Some(IoSave)
    case (Some(4), Some(2001), Some(PathContent(p))) => Some(UiAdd(p))
    case (Some(4), Some(2002), Some(EditContent(p, title, url))) => Some(UiEdit(p, title, url))
    case (Some(4), Some(2003), Some(NotesContent(p, notes))) => Some(UiNotes(p, notes))
    case (Some(4), Some(2005), Some(PathContent(p))) => Some(UiDelete(p))
    case (Some(4), Some(2004), Some(SwapContent(src, dst))) => Some(UiSwap(src, dst))
    case (Some(4), Some(2006), None) => Some(UiFreeze)
    case _ => None
  }

  /**
   * Every builder's message can be told apart from every other builder's and
   * carries its arguments unchanged: decoding gives back the call.
   */
  lemma DecodeBuild<Tree, File>(r: Request<Tree, File>)
    ensures Decode(Build(r)) == Some(r)
  {
  }

  /** The three message types are distinct single bits. */
  lemma MessageTypesAreDistinctBits()
    ensures And32(BH, BH) == 1 && And32(IO, IO) == 2 && And32(UI, UI) == 4
    ensures And32(BH, IO) == 0 && And32(BH, UI) == 0 && And32(IO, UI) == 0
  {
    assert BH % 0x1_0000_0000 == 1 && IO % 0x1_0000_0000 == 2 && UI % 0x1_0000_0000 == 4;
    assert (1 as bv32) & (1 as bv32) == 1 && (2 as bv32) & (2 as bv32) == 2 && (4 as bv32) & (4 as bv32) == 4;
    assert (1 as bv32) & (2 as bv32) == 0 && (1 as bv32) & (4 as bv32) == 0 && (2 as bv32) & (4 as bv32) == 0;
  }

  /**
   * As written, validation fails exactly when the message's type is the
   * target type: a BH message does not validate against BH but does against IO.
   */
  lemma ValidateRejectsOwnType<Tree, File>(r: Request<Tree, File>, targetType: int)
    requires targetType == BH || targetType == IO || targetType == UI
    ensures Build(r).msgType.Some?
    ensures ValidateMessage(Build(r), targetType) <==> Build(r).msgType.value != targetType
  {
    MessageTypesAreDistinctBits();
  }

  /** A message without a type never validates. */
  lemma ValidateNeedsType<Tree, File>(m: Message<Tree, File>, targetType: int)
    requires m.msgType.None?
    ensures !ValidateMessage(m, targetType)
  {
  }
}
