/** The block list of one note in the notes editor (apps/day03-notes/app.js): insert
    below, delete, drag reorder, slash commands and block-menu type changes. Each operation
    here computes the new block list; recording an undo snapshot afterwards is the business
    of the Notes module. Blocks are identified by id, and new ids are supplied by the
    caller. */
module NoteBlocks {
  import opened Common
  import opened Seqs

  datatype Kind = Paragraph | Heading | Todo | Divider | Image | Code

  /** A block; fields a block of its kind does not carry are `None`. */
  datatype Block = Block(
    id: string,
    kind: Kind,
    content: Option<string>,
    checked: Option<bool>,
    src: Option<string>,
    caption: Option<string>)

  function NewParagraph(id: string): Block {
    Block(id, Paragraph, Some(""), None, None, None)
  }

  function DividerBlock(id: string): Block {
    Block(id, Divider, None, None, None, None)
  }

  function ImageBlock(id: string, url: string): Block {
    Block(id, Image, None, None, Some(url), Some(""))
  }

  predicate HasId(bs: seq<Block>, id: string) {
    exists k :: 0 <= k < |bs| && bs[k].id == id
  }

  /** Array.prototype.findIndex on the id: the first block with it, or -1. */
  function FindIndex(bs: seq<Block>, id: string): (r: int)
    ensures -1 <= r < |bs|
    ensures r == -1 <==> !HasId(bs, id)
    ensures r >= 0 ==> bs[r].id == id && forall k :: 0 <= k < r ==> bs[k].id != id
    decreases |bs|
  {
    if |bs| == 0 then -1
    else if bs[0].id == id then 0
    else
      var k := FindIndex(bs[1..], id);
      if k == -1 then
        assert forall j :: 1 <= j < |bs| ==> bs[j] == bs[1..][j - 1];
        -1
      else k + 1
  }

  /* ---------- insert below and delete ---------- */

  /** The "+" button and the Enter key: a new block right after index `idx`
      (`splice(idx + 1, 0, nb)`); an index of -1, from a block that is not found, puts it
      first. Every other block keeps its place relative to the others. */
  function InsertBelow(bs: seq<Block>, idx: int, nb: Block): (r: seq<Block>)
    requires -1 <= idx < |bs|
    ensures |r| == |bs| + 1
    ensures r[idx + 1] == nb
    ensures r[..idx + 1] == bs[..idx + 1] && r[idx + 2..] == bs[idx + 1..]
  {
    Splice(bs, idx + 1, 0, [nb])
  }

  /** The "✕" button: every block with the id goes, the others stay in order. */
  function DeleteBlock(bs: seq<Block>, id: string): (r: seq<Block>)
    ensures !HasId(r, id)
    ensures forall k :: 0 <= k < |bs| && bs[k].id != id ==> bs[k] in r
    ensures forall b :: b in r ==> b in bs
    ensures IsSubseq(r, bs)
    ensures forall b :: multiset(r)[b] == (if b.id != id then multiset(bs)[b] else 0)
  {
    FilterIsSubseq(bs, OtherId(id));
    FilterCounts(bs, OtherId(id));
    Filter(bs, OtherId(id))
  }

  function OtherId(id: string): Block -> bool {
    (b: Block) => b.id != id
  }

  /** Deleting a freshly inserted block gives back the list it was inserted into. */
  lemma {:induction false} DeleteUndoesInsert(bs: seq<Block>, idx: int, nb: Block)
    requires -1 <= idx < |bs|
    requires !HasId(bs, nb.id)
    ensures DeleteBlock(InsertBelow(bs, idx, nb), nb.id) == bs
  {
    var keep := OtherId(nb.id);
    var front, back := bs[..idx + 1], bs[idx + 1..];
    InsertBelowSplit(bs, idx, nb);
    AllKept(bs, nb.id, 0, idx + 1);
    AllKept(bs, nb.id, idx + 1, |bs|);
    FilterDropsOne(front, nb, back, keep);
    assert front + back == bs;
  }

  lemma InsertBelowSplit(bs: seq<Block>, idx: int, nb: Block)
    requires -1 <= idx < |bs|
    ensures InsertBelow(bs, idx, nb) == bs[..idx + 1] + [nb] + bs[idx + 1..]
  {
    var ins := InsertBelow(bs, idx, nb);
    assert ins == ins[..idx + 1] + [ins[idx + 1]] + ins[idx + 2..];
  }

  /** A slice of a list without the id passes the filter that deletes the id. */
  lemma AllKept(bs: seq<Block>, id: string, lo: nat, hi: nat)
    requires lo <= hi <= |bs| && !HasId(bs, id)
    ensures forall i :: 0 <= i < |bs[lo..hi]| ==> OtherId(id)(bs[lo..hi][i])
  {
    forall i | 0 <= i < |bs[lo..hi]| ensures OtherId(id)(bs[lo..hi][i]) {
      assert bs[lo..hi][i] == bs[lo + i];
    }
  }

  /* ---------- drag reorder ---------- */

  /** Take the block at `from` out and put it back in at `to`, counted in the shortened
      list. */
  function MoveIndex(bs: seq<Block>, from: nat, to: nat): (r: seq<Block>)
    requires from < |bs| && to < |bs|
    ensures |r| == |bs|
    ensures r[to] == bs[from]
    ensures RemoveAt(r, to) == RemoveAt(bs, from)
  {
    var rest := RemoveAt(bs, from);
    var r := Splice(rest, to, 0, [bs[from]]);
    assert r == rest[..to] + [bs[from]] + rest[to..];
    assert RemoveAt(r, to) == rest;
    r
  }

  /** A move only reorders. */
  lemma MoveIndexPermutes(bs: seq<Block>, from: nat, to: nat)
    requires from < |bs| && to < |bs|
    ensures multiset(MoveIndex(bs, from, to)) == multiset(bs)
  {
    var r := MoveIndex(bs, from, to);
    MultisetRemoveAt(r, to);
    MultisetRemoveAt(bs, from);
  }

  /** Dragging the block back to where it came from restores the list. */
  lemma MoveBack(bs: seq<Block>, from: nat, to: nat)
    requires from < |bs| && to < |bs|
    ensures MoveIndex(MoveIndex(bs, from, to), to, from) == bs
  {
    var r := MoveIndex(bs, from, to);
    var rest := RemoveAt(bs, from);
    assert MoveIndex(r, to, from) == Splice(rest, from, 0, [bs[from]]);
    assert Splice(rest, from, 0, [bs[from]]) == rest[..from] + [bs[from]] + rest[from..];
    assert rest[..from] == bs[..from] && rest[from..] == bs[from + 1..];
    assert bs == bs[..from] + [bs[from]] + bs[from + 1..];
  }

  /** The drop handler: nothing happens when no id was dragged, when a block is dropped on
      itself, or when either id is missing; otherwise the first block with the dragged id
      moves to the index the target had before the move. */
  function Move(bs: seq<Block>, dragged: string, target: string): (r: seq<Block>)
    ensures |r| == |bs| && multiset(r) == multiset(bs)
    ensures dragged == "" || dragged == target || !HasId(bs, dragged) || !HasId(bs, target) ==> r == bs
    ensures dragged != "" && dragged != target && HasId(bs, dragged) && HasId(bs, target) ==>
              r[FindIndex(bs, target)] == bs[FindIndex(bs, dragged)] &&
              RemoveAt(r, FindIndex(bs, target)) == RemoveAt(bs, FindIndex(bs, dragged))
  {
    if dragged == "" || dragged == target then bs
    else
      var from := FindIndex(bs, dragged);
      var to := FindIndex(bs, target);
      if from == -1 || to == -1 then bs
      else
        MoveIndexPermutes(bs, from, to);
        MoveIndex(bs, from, to)
  }

  /* ---------- type changes ---------- */

  /** Apply `f` to the first block with the id; a missing id changes nothing. */
  function UpdateBlock(bs: seq<Block>, id: string, f: Block -> Block): (r: seq<Block>)
    ensures |r| == |bs|
    ensures !HasId(bs, id) ==> r == bs
    ensures HasId(bs, id) ==> r[FindIndex(bs, id)] == f(bs[FindIndex(bs, id)])
    ensures forall k :: 0 <= k < |bs| && k != FindIndex(bs, id) ==> r[k] == bs[k]
  {
    var idx := FindIndex(bs, id);
    if idx < 0 then bs else bs[idx := f(bs[idx])]
  }

  /** Replace the block at the found index with a divider (`splice(idx, 1, divider)`);
      with -1 the clamped start index makes it replace the last block. */
  function ReplaceWithDivider(bs: seq<Block>, id: string, newId: string): (r: seq<Block>)
    ensures HasId(bs, id) ==> |r| == |bs| && r[FindIndex(bs, id)] == DividerBlock(newId)
    ensures HasId(bs, id) ==> forall k :: 0 <= k < |bs| && k != FindIndex(bs, id) ==> r[k] == bs[k]
    ensures !HasId(bs, id) && |bs| > 0 ==> r == bs[..|bs| - 1] + [DividerBlock(newId)]
    ensures !HasId(bs, id) && |bs| == 0 ==> r == [DividerBlock(newId)]
  {
    var idx := FindIndex(bs, id);
    var r := Splice(bs, idx, 1, [DividerBlock(newId)]);
    if idx >= 0 then
      assert r == bs[..idx] + [DividerBlock(newId)] + bs[idx + 1..];
      r
    else r
  }

  /** Insert an image block after the found index. */
  function InsertImage(bs: seq<Block>, id: string, newId: string, url: string): (r: seq<Block>)
    ensures |r| == |bs| + 1
    ensures r[FindIndex(bs, id) + 1] == ImageBlock(newId, url)
    ensures r[..FindIndex(bs, id) + 1] == bs[..FindIndex(bs, id) + 1]
    ensures r[FindIndex(bs, id) + 2..] == bs[FindIndex(bs, id) + 1..]
  {
    InsertBelow(bs, FindIndex(bs, id), ImageBlock(newId, url))
  }

  /** The kind each slash command names, as the editor documents it. */
  function CommandKind(cmd: string): Option<Kind> {
    if cmd == "/h" || cmd == "/heading" then Some(Heading)
    else if cmd == "/todo" then Some(Todo)
    else if cmd == "/hr" || cmd == "/divider" then Some(Divider)
    else if cmd == "/img" || cmd == "/image" then Some(Image)
    else if cmd == "/code" then Some(Code)
    else None
  }

  /** The space key on a block whose trimmed text is a slash command (lines 371-377).
      `url` is the answer to the image prompt. `None` means nothing changed and no snapshot
      is taken. Heading, to-do and code clear the text; a divider replaces the block; an
      image is inserted after it when the prompt returns a non-empty URL. */
  function SlashCommand(bs: seq<Block>, id: string, text: string, newId: string, url: Option<string>): (r: Option<seq<Block>>)
    ensures r.Some? ==> CommandKind(Trim(text)).Some?
  {
    var cmd := Trim(text);
    if cmd == "/h" || cmd == "/heading" then
      Some(UpdateBlock(bs, id, (b: Block) => b.(kind := Heading, content := Some(""))))
    else if cmd == "/todo" then
      Some(UpdateBlock(bs, id, (b: Block) => b.(kind := Todo, content := Some(""), checked := Some(false))))
    else if cmd == "/hr" || cmd == "/divider" then
      Some(ReplaceWithDivider(bs, id, newId))
    else if cmd == "/img" || cmd == "/image" then
      if url.Some? && url.value != "" then Some(InsertImage(bs, id, newId, url.value)) else None
    else if cmd == "/code" then
      Some(UpdateBlock(bs, id, (b: Block) => b.(kind := Code, content := Some(""))))
    else None
  }

  /** A slash command acts exactly when the trimmed text names a command (and, for an
      image, a URL was given); on a block that is present, the block it leaves at the
      block's place (or right after it, for an image) has the kind the command names, and
      the list keeps its length except for the inserted image. A to-do starts unticked, and
      every other block is left as it was. */
  lemma SlashCommandKinds(bs: seq<Block>, id: string, text: string, newId: string, url: Option<string>)
    ensures SlashCommand(bs, id, text, newId, url).Some? <==>
              CommandKind(Trim(text)).Some? &&
              (CommandKind(Trim(text)) == Some(Image) ==> url.Some? && url.value != "")
    ensures HasId(bs, id) && SlashCommand(bs, id, text, newId, url).Some? ==>
              var r := SlashCommand(bs, id, text, newId, url).value;
              var k := CommandKind(Trim(text)).value;
              var i := FindIndex(bs, id);
              if k == Image then |r| == |bs| + 1 && r[i + 1].kind == Image
              else |r| == |bs| && r[i].kind == k && (k != Divider ==> r[i].content == Some(""))
    ensures HasId(bs, id) && SlashCommand(bs, id, text, newId, url).Some? ==>
              var r := SlashCommand(bs, id, text, newId, url).value;
              var k := CommandKind(Trim(text)).value;
              var i := FindIndex(bs, id);
              (k == Todo ==> r[i].checked == Some(false)) &&
              (k == Image ==> r[..i + 1] == bs[..i + 1] && r[i + 2..] == bs[i + 1..]) &&
              (k != Image ==> forall j :: 0 <= j < |r| && j != i ==> r[j] == bs[j])
  {
    var cmd := Trim(text);
    if cmd == "/h" || cmd == "/heading" {
    } else if cmd == "/todo" {
    } else if cmd == "/hr" || cmd == "/divider" {
    } else if cmd == "/img" || cmd == "/image" {
    } else if cmd == "/code" {
    }
  }

  /** The block menu (lines 397-412): divider and image as for the slash commands; code
      keeps existing text; the other kinds only change the kind. A block that is no
      longer in the list is changed off the list, so the list stays as it was, except that
      a divider then replaces the last block and an image goes first (findIndex gives -1).
      The caller always takes a snapshot afterwards. */
  function MenuChange(bs: seq<Block>, id: string, t: Kind, newId: string, url: Option<string>): (r: seq<Block>)
    ensures t != Image && (t != Divider || HasId(bs, id)) ==> |r| == |bs|
    ensures HasId(bs, id) && t != Image ==> r[FindIndex(bs, id)].kind == t
    ensures HasId(bs, id) && t != Image && t != Divider ==>
              r[FindIndex(bs, id)].content ==
                (if t == Code then Some(bs[FindIndex(bs, id)].content.GetOr("")) else bs[FindIndex(bs, id)].content)
    ensures t != Image && (t != Divider || HasId(bs, id)) ==>
              forall k :: 0 <= k < |bs| && k != FindIndex(bs, id) ==> r[k] == bs[k]
    ensures t != Image && t != Divider && !HasId(bs, id) ==> r == bs
    ensures t == Divider && HasId(bs, id) ==> r[FindIndex(bs, id)] == DividerBlock(newId)
    ensures t == Divider && !HasId(bs, id) && |bs| > 0 ==> r == bs[..|bs| - 1] + [DividerBlock(newId)]
    ensures t == Image && url.Some? && url.value != "" ==>
              var i := FindIndex(bs, id);
              |r| == |bs| + 1 && r[i + 1] == ImageBlock(newId, url.value) &&
              r[..i + 1] == bs[..i + 1] && r[i + 2..] == bs[i + 1..]
    ensures t == Image && (url.None? || url == Some("")) ==> r == bs
  {
    if t == Divider then ReplaceWithDivider(bs, id, newId)
    else if t == Image then
      if url.Some? && url.value != "" then InsertImage(bs, id, newId, url.value) else bs
    else if t == Code then
      UpdateBlock(bs, id, (b: Block) => b.(kind := Code, content := Some(b.content.GetOr(""))))
    else UpdateBlock(bs, id, (b: Block) => b.(kind := t))
  }

  /** The menu's divider does what the `/hr` command does. */
  lemma MenuDividerMatchesSlash(bs: seq<Block>, id: string, newId: string, url: Option<string>)
    ensures SlashCommand(bs, id, "/hr", newId, url) == Some(MenuChange(bs, id, Divider, newId, url))
  {
    SlashDivider(bs, id, newId, url);
  }

  /** With a URL, the menu's image does what the `/img` command does. */
  lemma MenuImageMatchesSlash(bs: seq<Block>, id: string, newId: string, url: Option<string>)
    ensures url.Some? && url.value != "" ==>
              SlashCommand(bs, id, "/img", newId, url) == Some(MenuChange(bs, id, Image, newId, url))
  {
    SlashImage(bs, id, newId, url);
  }

  lemma SlashDivider(bs: seq<Block>, id: string, newId: string, url: Option<string>)
    ensures SlashCommand(bs, id, "/hr", newId, url) == Some(ReplaceWithDivider(bs, id, newId))
  {
    TrimCommand("/hr");
  }

  lemma SlashImage(bs: seq<Block>, id: string, newId: string, url: Option<string>)
    ensures url.Some? && url.value != "" ==>
              SlashCommand(bs, id, "/img", newId, url) == Some(InsertImage(bs, id, newId, url.value))
  {
    TrimCommand("/img");
  }

  lemma SlashCode(bs: seq<Block>, id: string, newId: string, url: Option<string>)
    ensures SlashCommand(bs, id, "/code", newId, url) ==
              Some(UpdateBlock(bs, id, (b: Block) => b.(kind := Code, content := Some(""))))
  {
    TrimCommand("/code");
  }

  lemma SlashHeading(bs: seq<Block>, id: string, newId: string, url: Option<string>)
    ensures SlashCommand(bs, id, "/h", newId, url) ==
              Some(UpdateBlock(bs, id, (b: Block) => b.(kind := Heading, content := Some(""))))
  {
    TrimCommand("/h");
  }

  /** On a block without text, the menu's code agrees with `/code`. */
  lemma MenuCodeMatchesSlashOnEmpty(bs: seq<Block>, id: string, newId: string, url: Option<string>)
    requires HasId(bs, id) && bs[FindIndex(bs, id)].content == Some("")
    ensures SlashCommand(bs, id, "/code", newId, url) == Some(MenuChange(bs, id, Code, newId, url))
  {
    SlashCode(bs, id, newId, url);
    var i := FindIndex(bs, id);
    var b := bs[i];
    assert MenuChange(bs, id, Code, newId, url) == bs[i := b.(kind := Code, content := Some(b.content.GetOr("")))];
    assert b.(kind := Code, content := Some(b.content.GetOr(""))) == b.(kind := Code, content := Some(""));
  }

  /** On a block without text, the menu's heading agrees with `/h`. */
  lemma MenuHeadingMatchesSlashOnEmpty(bs: seq<Block>, id: string, newId: string, url: Option<string>)
    requires HasId(bs, id) && bs[FindIndex(bs, id)].content == Some("")
    ensures SlashCommand(bs, id, "/h", newId, url) == Some(MenuChange(bs, id, Heading, newId, url))
  {
    SlashHeading(bs, id, newId, url);
    var i := FindIndex(bs, id);
    var b := bs[i];
    assert MenuChange(bs, id, Heading, newId, url) == bs[i := b.(kind := Heading)];
    assert b.(kind := Heading) == b.(kind := Heading, content := Some(""));
  }

  /** A command text, which starts with `/` and ends in a letter, trims to itself. */
  lemma TrimCommand(cmd: string)
    requires |cmd| > 0 && cmd[0] == '/' && IsLower(cmd[|cmd| - 1])
    ensures Trim(cmd) == cmd
  {
    assert LeadingSpaces(cmd) == 0;
    assert cmd[0..] == cmd;
    assert TrailingSpaces(cmd) == 0;
    assert cmd[..|cmd| - 0] == cmd;
  }
}
