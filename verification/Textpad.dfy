/** The textpad's edit state: a cursor, an anchor and a code point count beside a text runtime. */
module Textpads {
  import opened Wrappers
  import opened Bytes
  import opened Utf8
  import opened Motion

  // ---------------------------------------------------------------- actions and their surroundings

  datatype Flags = Flags(selecting: bool, word: bool, wordPart: bool)
  {
    predicate ByWord() { word || wordPart }
  }

  datatype Action =
    | MoveLeft(flags: Flags) | MoveRight(flags: Flags)
    | MoveHome(flags: Flags) | MoveEnd(flags: Flags) | MoveUp(flags: Flags) | MoveDown(flags: Flags)
    | DeleteLeft(flags: Flags) | DeleteRight(flags: Flags)
    | Indent | Outdent
    | InsertCodepoint(codepoint: U32)
    | SelectAll | Copy | Cut | Paste | Quit
    | ToggleWrap | CompositionUpdate | CompositionClear | Undo | Redo | Save
    | Unknown

  datatype Outcome = Applied | Noop | RecoverableError

  datatype ClipboardReply = Unavailable | NoText | HasText(utf8: seq<Byte>) | BadReply

  datatype TabEdit = TabEdit(start: nat, end: nat, replacement: seq<Byte>, nextAnchor: nat, nextActive: nat)

  /**
   * What the surroundings answer while one action runs: whether each call into the text runtime goes
   * through, what the clipboard says, and which tab edit the editor library proposes.
   */
  datatype Host = Host(exports: bool, deletes: bool, inserts: bool,
                       clipboard: ClipboardReply, keepsClip: bool,
                       loadsModel: bool, indent: Option<TabEdit>, outdent: Option<TabEdit>)

  // ---------------------------------------------------------------- the abstract state

  datatype Pad = Pad(text: Text, cursor: nat, anchor: nat, running: bool)
  {
    predicate InBounds() { cursor <= |text| && anchor <= |text| }

    predicate Selecting() { cursor != anchor }

    function Low(): nat { if cursor < anchor then cursor else anchor }

    function High(): nat { if cursor < anchor then anchor else cursor }

    function Selection(): Text
      requires InBounds()
    {
      text[Low()..High()]
    }

    function Goto(next: nat, selecting: bool): Pad {
      this.(cursor := next, anchor := if selecting then anchor else next)
    }

    /** The text with `start..end` replaced, and the caret behind the replacement. */
    function Splice(start: nat, end: nat, piece: Text): Pad
      requires start <= end <= |text|
    {
      Pad(text[..start] + piece + text[end..], start + |piece|, start + |piece|, running)
    }

    function Erase(start: nat, end: nat): Pad
      requires start <= end <= |text|
    {
      if start == end then this else Splice(start, end, [])
    }

    function LeftTarget(flags: Flags): nat
      requires InBounds()
    {
      LeftStop(ClassesOf(text), cursor, flags.ByWord())
    }

    function RightTarget(flags: Flags): nat
      requires InBounds()
    {
      RightStop(ClassesOf(text), cursor, flags.ByWord())
    }
  }

  /** Deleting and inserting are two calls: when only the second fails the range is gone. */
  function Replace(p: Pad, start: nat, end: nat, utf8: seq<Byte>, h: Host): (Pad, bool)
    requires start <= end <= |p.text|
  {
    if start < end && !h.deletes then (p, false)
    else if !h.inserts || Decode(utf8).None? then (p.Erase(start, end), false)
    else (p.Splice(start, end, Decode(utf8).value), true)
  }

  function Retab(p: Pad, edit: TabEdit, h: Host): (Pad, bool) {
    if edit.start > edit.end || edit.end > |p.text| then (p, false)
    else
      var (q, ok) := Replace(p, edit.start, edit.end, edit.replacement, h);
      (if ok then q.(anchor := Clip(edit.nextAnchor, |q.text|), cursor := Clip(edit.nextActive, |q.text|)) else q, ok)
  }

  function Clip(n: nat, bound: nat): nat {
    if n > bound then bound else n
  }

  function Typed(codepoint: U32): U32 {
    if codepoint == 0x0D || codepoint == 0x0A then 0x20 else codepoint
  }

  // ---------------------------------------------------------------- what each action does

  function Did(r: (Pad, bool)): (Pad, Outcome) {
    (r.0, if r.1 then Applied else RecoverableError)
  }

  function Delete(p: Pad, start: nat, end: nat, h: Host): (Pad, Outcome)
    requires start <= end <= |p.text|
  {
    if start < end && !h.deletes then (p, RecoverableError) else (p.Erase(start, end), Applied)
  }

  function Tab(p: Pad, edit: Option<TabEdit>, h: Host): (Pad, Outcome) {
    if !h.exports || !h.loadsModel then (p, RecoverableError)
    else if edit.None? then (p, Applied)
    else Did(Retab(p, edit.value, h))
  }

  function Step(p: Pad, a: Action, h: Host): (Pad, Outcome)
    requires p.InBounds()
  {
    match a
    case MoveLeft(f) =>
      if h.exports then (p.Goto(p.LeftTarget(f), f.selecting), Applied) else (p, RecoverableError)
    case MoveRight(f) =>
      if h.exports then (p.Goto(p.RightTarget(f), f.selecting), Applied) else (p, RecoverableError)
    case MoveHome(f) => (p.Goto(0, f.selecting), Applied)
    case MoveUp(f) => (p.Goto(0, f.selecting), Applied)
    case MoveEnd(f) => (p.Goto(|p.text|, f.selecting), Applied)
    case MoveDown(f) => (p.Goto(|p.text|, f.selecting), Applied)
    case DeleteLeft(f) =>
      if p.Selecting() then Delete(p, p.Low(), p.High(), h)
      else if p.cursor == 0 then (p, Noop)
      else if !h.exports then (p, RecoverableError)
      else LeftTargetBounds(p, f); Delete(p, p.LeftTarget(f), p.cursor, h)
    case DeleteRight(f) =>
      if p.Selecting() then Delete(p, p.Low(), p.High(), h)
      else if p.cursor == |p.text| then (p, Noop)
      else if !h.exports then (p, RecoverableError)
      else RightTargetBounds(p, f); Delete(p, p.cursor, p.RightTarget(f), h)
    case Indent => Tab(p, h.indent, h)
    case Outdent => Tab(p, h.outdent, h)
    case InsertCodepoint(n) => Did(Replace(p, p.Low(), p.High(), EncodeOne(Typed(n)), h))
    case SelectAll => (p.(anchor := 0, cursor := |p.text|), Applied)
    case Copy =>
      if !p.Selecting() then (p, Noop)
      else (p, if h.exports && h.keepsClip then Applied else RecoverableError)
    case Cut =>
      if !p.Selecting() then (p, Noop)
      else if !h.exports || !h.keepsClip then (p, RecoverableError)
      else Delete(p, p.Low(), p.High(), h)
    case Paste => (
      match h.clipboard
      case Unavailable => (p, RecoverableError)
      case NoText => (p, Noop)
      case BadReply => (p, RecoverableError)
      case HasText(utf8) => Did(Replace(p, p.Low(), p.High(), utf8, h)))
    case Quit => (p.(running := false), Applied)
    case Unknown => (p, RecoverableError)
    case _ => (p, Noop)
  }

  lemma LeftTargetBounds(p: Pad, f: Flags)
    requires p.InBounds()
    ensures p.LeftTarget(f) <= p.cursor && (p.cursor > 0 ==> p.LeftTarget(f) < p.cursor)
  {
    WordLeftIs(ClassesOf(p.text), p.cursor, 0);
  }

  lemma RightTargetBounds(p: Pad, f: Flags)
    requires p.InBounds()
    ensures p.cursor <= p.RightTarget(f) <= |p.text| && (p.cursor < |p.text| ==> p.cursor < p.RightTarget(f))
  {
    WordRightIs(ClassesOf(p.text), p.cursor, 0);
  }

  // ---------------------------------------------------------------- the state object

  class Textpad {
    var text: Text
    var cursor: nat
    var anchor: nat
    var charCount: nat
    var running: bool

    ghost predicate Valid()
      reads this
    {
      cursor <= charCount && anchor <= charCount && charCount == |text|
    }

    ghost function View(): Pad
      reads this
    {
      Pad(text, cursor, anchor, running)
    }

    constructor ()
      ensures Valid() && View() == Pad([], 0, 0, true)
    {
      text, cursor, anchor, charCount, running := [], 0, 0, 0, true;
    }

    method Export(h: Host) returns (r: Option<seq<Byte>>)
      ensures r == if h.exports then Some(Encode(text)) else None
    {
      return if h.exports then Some(Encode(text)) else None;
    }

    method DeleteRange(start: nat, end: nat, h: Host) returns (ok: bool)
      requires Valid()
      modifies this
      ensures Valid()
      ensures ok <==> start <= end <= |old(text)| && (start < end ==> h.deletes)
      ensures View() == if ok then old(View()).Erase(start, end) else old(View())
    {
      if start > end || end > charCount {
        return false;
      }
      if start == end {
        return true;
      }
      if !h.deletes {
        return false;
      }
      text := text[..start] + text[end..];
      charCount := charCount - (end - start);
      cursor := start;
      anchor := start;
      return true;
    }

    method InsertUtf8(offset: nat, data: seq<Byte>, inserted: nat, h: Host) returns (ok: bool)
      requires Valid() && inserted == Starts(data)
      modifies this
      ensures Valid()
      ensures ok <==> offset <= |old(text)| && h.inserts && Decode(data).Some?
      ensures View() == if ok then old(View()).Splice(offset, offset, Decode(data).value) else old(View())
    {
      if offset > charCount || !h.inserts {
        return false;
      }
      var codepoints := DecodeCodepoints(data);
      if codepoints.None? {
        return false;
      }
      DecodesExactlyEncodings(data, codepoints.value);
      CountsCodepoints(codepoints.value);
      text := text[..offset] + codepoints.value + text[offset..];
      charCount := charCount + inserted;
      cursor := offset + inserted;
      anchor := cursor;
      return true;
    }

    method ReplaceSelection(data: seq<Byte>, h: Host) returns (ok: bool)
      requires Valid()
      modifies this
      ensures Valid()
      ensures (View(), ok) == Replace(old(View()), old(View()).Low(), old(View()).High(), data, h)
    {
      var start, end := if cursor < anchor then cursor else anchor, if cursor > anchor then cursor else anchor;
      var inserted := CountCodepoints(data);
      ok := DeleteRange(start, end, h);
      if !ok {
        return false;
      }
      ok := InsertUtf8(start, data, inserted, h);
      EraseThenInsert(old(View()), start, end, data);
    }

    method TypeCodepoint(codepoint: U32, h: Host) returns (ok: bool)
      requires Valid()
      modifies this
      ensures Valid()
      ensures (View(), if ok then Applied else RecoverableError) == Step(old(View()), InsertCodepoint(codepoint), h)
    {
      var printable := if codepoint == 0x0D || codepoint == 0x0A then 0x20 else codepoint;
      ok := ReplaceSelection(EncodeOne(printable), h);
    }

    method ReplaceRange(edit: TabEdit, h: Host) returns (ok: bool)
      requires Valid()
      modifies this
      ensures Valid()
      ensures (View(), ok) == Retab(old(View()), edit, h)
    {
      var inserted := CountCodepoints(edit.replacement);
      if edit.start > edit.end || edit.end > charCount {
        return false;
      }
      ok := DeleteRange(edit.start, edit.end, h);
      if !ok {
        return false;
      }
      ok := InsertUtf8(edit.start, edit.replacement, inserted, h);
      EraseThenInsert(old(View()), edit.start, edit.end, edit.replacement);
      if ok {
        anchor := if edit.nextAnchor > charCount then charCount else edit.nextAnchor;
        cursor := if edit.nextActive > charCount then charCount else edit.nextActive;
      }
    }

    method MoveCursor(target: nat, selecting: bool)
      requires Valid()
      modifies this
      ensures Valid() && View() == old(View()).Goto(Clip(target, |old(text)|), selecting)
    {
      var next := if target > charCount then charCount else target;
      if !selecting {
        anchor := next;
      }
      cursor := next;
    }

    /** The bytes handed to the clipboard are the encoding of exactly the selected code points. */
    method CopySelection(h: Host) returns (ok: bool, copied: Option<seq<Byte>>)
      requires Valid()
      ensures ok <==> cursor == anchor || (h.exports && h.keepsClip)
      ensures copied == if cursor != anchor && h.exports then Some(Encode(View().Selection())) else None
    {
      if cursor == anchor {
        return true, None;
      }
      var exported := Export(h);
      if exported.None? {
        return false, None;
      }
      var startCp, endCp := if cursor < anchor then cursor else anchor, if cursor > anchor then cursor else anchor;
      var startByte := CodepointToByte(exported.value, startCp);
      var endByte := CodepointToByte(exported.value, endCp);
      SliceIsSelection(text, startCp, endCp);
      return h.keepsClip, Some(exported.value[startByte..endByte]);
    }

    method MoveSideways(left: bool, flags: Flags, h: Host) returns (outcome: Outcome)
      requires Valid()
      modifies this
      ensures Valid()
      ensures (View(), outcome) == Step(old(View()), if left then MoveLeft(flags) else MoveRight(flags), h)
    {
      var exported := Export(h);
      if exported.None? {
        return RecoverableError;
      }
      var next := Boundary(exported.value, left, flags);
      MoveCursor(next, flags.selecting);
      return Applied;
    }

    method Boundary(data: seq<Byte>, left: bool, flags: Flags) returns (next: nat)
      requires Valid() && data == Encode(text)
      ensures next == if left then View().LeftTarget(flags) else View().RightTarget(flags)
      ensures next <= |text|
    {
      if left {
        next := PrevBoundary(data, cursor, flags.ByWord());
        ClassesOfEncoding(text, cursor);
        LeftStopPrefix(ClassesOf(text), cursor, flags.ByWord());
        LeftTargetBounds(View(), flags);
      } else {
        next := NextBoundary(data, charCount, cursor, flags.ByWord());
        ClassesOfEncoding(text, charCount);
        assert ClassesOf(text)[..charCount] == ClassesOf(text);
        RightTargetBounds(View(), flags);
      }
    }

    method DeleteSelection(h: Host) returns (outcome: Outcome)
      requires Valid()
      modifies this
      ensures Valid()
      ensures (View(), outcome) == Delete(old(View()), old(View()).Low(), old(View()).High(), h)
    {
      var ok := DeleteRange(if cursor < anchor then cursor else anchor, if cursor > anchor then cursor else anchor, h);
      return if ok then Applied else RecoverableError;
    }

    method DeleteSideways(left: bool, flags: Flags, h: Host) returns (outcome: Outcome)
      requires Valid()
      modifies this
      ensures Valid()
      ensures (View(), outcome) == Step(old(View()), if left then DeleteLeft(flags) else DeleteRight(flags), h)
    {
      if cursor != anchor {
        outcome := DeleteSelection(h);
        return;
      }
      if (left && cursor == 0) || (!left && cursor >= charCount) {
        return Noop;
      }
      var exported := Export(h);
      if exported.None? {
        return RecoverableError;
      }
      var next := Boundary(exported.value, left, flags);
      LeftTargetBounds(View(), flags);
      RightTargetBounds(View(), flags);
      if next == cursor {
        return Noop;
      }
      var ok;
      if left {
        ok := DeleteRange(next, cursor, h);
      } else {
        ok := DeleteRange(cursor, next, h);
      }
      return if ok then Applied else RecoverableError;
    }

    method ApplyIndent(edit: Option<TabEdit>, h: Host) returns (outcome: Outcome)
      requires Valid()
      modifies this
      ensures Valid()
      ensures (View(), outcome) == Tab(old(View()), edit, h)
    {
      var exported := Export(h);
      if exported.None? || !h.loadsModel {
        return RecoverableError;
      }
      if edit.None? {
        return Applied;
      }
      var ok := ReplaceRange(edit.value, h);
      return if ok then Applied else RecoverableError;
    }

    method PasteClipboard(h: Host) returns (outcome: Outcome)
      requires Valid()
      modifies this
      ensures Valid()
      ensures (View(), outcome) == Step(old(View()), Paste, h)
    {
      match h.clipboard
      case Unavailable => return RecoverableError;
      case NoText => return Noop;
      case BadReply => return RecoverableError;
      case HasText(utf8) =>
        var ok := ReplaceSelection(utf8, h);
        return if ok then Applied else RecoverableError;
    }

    method CutSelection(h: Host) returns (outcome: Outcome, copied: Option<seq<Byte>>)
      requires Valid()
      modifies this
      ensures Valid()
      ensures (View(), outcome) == Step(old(View()), Cut, h)
      ensures copied == Copied(old(View()), Cut, h)
    {
      if cursor == anchor {
        return Noop, None;
      }
      var ok;
      ok, copied := CopySelection(h);
      if !ok {
        return RecoverableError, copied;
      }
      outcome := DeleteSelection(h);
    }

    method ApplyAction(a: Action, h: Host) returns (outcome: Outcome, copied: Option<seq<Byte>>)
      requires Valid()
      modifies this
      ensures Valid()
      ensures (View(), outcome) == Step(old(View()), a, h)
      ensures copied == Copied(old(View()), a, h)
    {
      copied := None;
      match a
      case MoveLeft(f) => outcome := MoveSideways(true, f, h);
      case MoveRight(f) => outcome := MoveSideways(false, f, h);
      case MoveHome(f) => MoveCursor(0, f.selecting); outcome := Applied;
      case MoveUp(f) => MoveCursor(0, f.selecting); outcome := Applied;
      case MoveEnd(f) => MoveCursor(charCount, f.selecting); outcome := Applied;
      case MoveDown(f) => MoveCursor(charCount, f.selecting); outcome := Applied;
      case DeleteLeft(f) => outcome := DeleteSideways(true, f, h);
      case DeleteRight(f) => outcome := DeleteSideways(false, f, h);
      case Indent => outcome := ApplyIndent(h.indent, h);
      case Outdent => outcome := ApplyIndent(h.outdent, h);
      case InsertCodepoint(n) =>
        var ok := TypeCodepoint(n, h);
        outcome := if ok then Applied else RecoverableError;
      case SelectAll => anchor := 0; cursor := charCount; outcome := Applied;
      case Copy =>
        var ok;
        ok, copied := CopySelection(h);
        outcome := if cursor == anchor then Noop else if ok then Applied else RecoverableError;
      case Cut => outcome, copied := CutSelection(h);
      case Paste => outcome := PasteClipboard(h);
      case Quit => running := false; outcome := Applied;
      case Unknown => outcome := RecoverableError;
      case _ => outcome := Noop;
    }
  }

  /** What an action offers to the clipboard. */
  function Copied(p: Pad, a: Action, h: Host): Option<seq<Byte>>
    requires p.InBounds()
  {
    if (a.Copy? || a.Cut?) && p.Selecting() && h.exports then Some(Encode(p.Selection())) else None
  }

  lemma EraseThenInsert(p: Pad, start: nat, end: nat, utf8: seq<Byte>)
    requires start <= end <= |p.text|
    ensures Decode(utf8).Some? ==>
              p.Erase(start, end).Splice(start, start, Decode(utf8).value) == p.Splice(start, end, Decode(utf8).value)
  {
    var q := p.Erase(start, end);
    assert q.text[..start] == p.text[..start] && q.text[start..] == p.text[end..];
  }
}
