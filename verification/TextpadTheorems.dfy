/** What runs of textpad actions keep, undo and agree on. */
module TextpadTheorems {
  import opened Wrappers
  import opened Bytes
  import opened Utf8
  import opened Textpads

  datatype Event = Event(action: Action, host: Host)

  /** The state after a run of actions, each with whatever its surroundings answered. */
  function Run(p: Pad, events: seq<Event>): Pad
    requires p.InBounds()
    decreases |events|
  {
    if events == [] then p
    else
      StepKeepsBounds(p, events[0].action, events[0].host);
      Run(Step(p, events[0].action, events[0].host).0, events[1..])
  }

  lemma ReplaceKeepsBounds(p: Pad, start: nat, end: nat, utf8: seq<Byte>, h: Host)
    requires start <= end <= |p.text| && p.InBounds()
    ensures Replace(p, start, end, utf8, h).0.InBounds()
  {
  }

  lemma DeleteKeepsBounds(p: Pad, start: nat, end: nat, h: Host)
    requires start <= end <= |p.text| && p.InBounds()
    ensures Delete(p, start, end, h).0.InBounds()
  {
  }

  lemma TabKeepsBounds(p: Pad, edit: Option<TabEdit>, h: Host)
    requires p.InBounds()
    ensures Tab(p, edit, h).0.InBounds()
  {
  }

  lemma StepKeepsBounds(p: Pad, a: Action, h: Host)
    requires p.InBounds()
    ensures Step(p, a, h).0.InBounds()
  {
    match a
    case MoveLeft(f) => LeftTargetBounds(p, f);
    case MoveRight(f) => RightTargetBounds(p, f);
    case DeleteLeft(f) => DeletionKeepsBounds(p, true, f, h);
    case DeleteRight(f) => DeletionKeepsBounds(p, false, f, h);
    case Cut => DeleteKeepsBounds(p, p.Low(), p.High(), h);
    case Paste =>
      if h.clipboard.HasText? {
        ReplaceKeepsBounds(p, p.Low(), p.High(), h.clipboard.utf8, h);
      }
    case InsertCodepoint(n) => ReplaceKeepsBounds(p, p.Low(), p.High(), EncodeOne(Typed(n)), h);
    case Indent => TabKeepsBounds(p, h.indent, h);
    case Outdent => TabKeepsBounds(p, h.outdent, h);
    case _ =>
  }

  lemma DeletionKeepsBounds(p: Pad, left: bool, f: Flags, h: Host)
    requires p.InBounds()
    ensures Step(p, if left then DeleteLeft(f) else DeleteRight(f), h).0.InBounds()
  {
    LeftTargetBounds(p, f);
    RightTargetBounds(p, f);
    DeleteKeepsBounds(p, p.Low(), p.High(), h);
    DeleteKeepsBounds(p, p.LeftTarget(f), p.cursor, h);
    DeleteKeepsBounds(p, p.cursor, p.RightTarget(f), h);
  }

  /** Cursor and anchor stay inside the text, whichever calls fail along the way. */
  lemma {:induction false} RunKeepsBounds(p: Pad, events: seq<Event>)
    requires p.InBounds()
    ensures Run(p, events).InBounds()
    decreases |events|
  {
    if events != [] {
      var e := events[0];
      StepKeepsBounds(p, e.action, e.host);
      RunKeepsBounds(Step(p, e.action, e.host).0, events[1..]);
    }
  }

  // ---------------------------------------------------------------- failures

  /** The replacement an action asks for: its range and its bytes. */
  function Asks(p: Pad, a: Action, h: Host): Option<(nat, nat, seq<Byte>)>
    requires p.InBounds()
  {
    match a
    case InsertCodepoint(n) => Some((p.Low(), p.High(), EncodeOne(Typed(n))))
    case Paste => if h.clipboard.HasText? then Some((p.Low(), p.High(), h.clipboard.utf8)) else None
    case Indent => AsksTab(p, h.indent, h)
    case Outdent => AsksTab(p, h.outdent, h)
    case _ => None
  }

  function AsksTab(p: Pad, edit: Option<TabEdit>, h: Host): Option<(nat, nat, seq<Byte>)> {
    if h.exports && h.loadsModel && edit.Some? && edit.value.start <= edit.value.end <= |p.text|
    then Some((edit.value.start, edit.value.end, edit.value.replacement))
    else None
  }

  /** The deletion of a replacement goes through on a non-empty range and its insertion does not. */
  predicate Torn(p: Pad, a: Action, h: Host)
    requires p.InBounds()
  {
    var r := Asks(p, a, h);
    r.Some? && r.value.0 < r.value.1 && h.deletes && (!h.inserts || Decode(r.value.2).None?)
  }

  lemma FailedReplace(p: Pad, start: nat, end: nat, utf8: seq<Byte>, h: Host)
    requires start <= end <= |p.text| && !Replace(p, start, end, utf8, h).1
    ensures Replace(p, start, end, utf8, h).0 == if start < end && h.deletes then p.Splice(start, end, []) else p
    ensures start < end && h.deletes ==> !h.inserts || Decode(utf8).None?
    ensures start < end ==> |p.Splice(start, end, []).text| < |p.text|
  {
  }

  /** An action that does not apply changes nothing, except for a torn replacement, which loses its range. */
  lemma FailuresKeepTextUnlessTorn(p: Pad, a: Action, h: Host)
    requires p.InBounds() && !Step(p, a, h).1.Applied?
    ensures Step(p, a, h).0 == p <==> !Torn(p, a, h)
    ensures Torn(p, a, h) ==> Step(p, a, h).0 == p.Splice(Asks(p, a, h).value.0, Asks(p, a, h).value.1, [])
    ensures Torn(p, a, h) ==> |Step(p, a, h).0.text| < |p.text|
  {
    match a
    case DeleteLeft(f) => LeftTargetBounds(p, f);
    case DeleteRight(f) => RightTargetBounds(p, f);
    case InsertCodepoint(_) | Paste | Indent | Outdent => FailedAsk(p, a, h);
    case _ =>
  }

  lemma FailedAsk(p: Pad, a: Action, h: Host)
    requires p.InBounds() && !Step(p, a, h).1.Applied?
    requires a.InsertCodepoint? || a.Paste? || a.Indent? || a.Outdent?
    ensures Step(p, a, h).0 == p <==> !Torn(p, a, h)
    ensures Torn(p, a, h) ==> Step(p, a, h).0 == p.Splice(Asks(p, a, h).value.0, Asks(p, a, h).value.1, [])
    ensures Torn(p, a, h) ==> |Step(p, a, h).0.text| < |p.text|
  {
    var ask := Asks(p, a, h);
    if ask.Some? {
      var (start, end, utf8) := ask.value;
      FailedReplace(p, start, end, utf8, h);
    }
  }

  /** Pasting a lone continuation byte over a selected letter: the letter is gone and nothing is inserted. */
  lemma BadPasteLosesSelection(p: Pad, h: Host)
    requires p == Pad([0x61], 1, 0, true) && h.deletes && h.clipboard.HasText? && h.clipboard.utf8 == [0x80]
    ensures Torn(p, Paste, h)
    ensures Step(p, Paste, h) == (Pad([], 0, 0, true), RecoverableError)
  {
    LoneContinuation([0x80]);
    assert p.Splice(0, 1, []) == Pad([], 0, 0, true);
  }

  lemma LoneContinuation(utf8: seq<Byte>)
    requires utf8 == [0x80]
    ensures Decode(utf8).None?
  {
    assert DecodeOne(utf8) == None;
  }

  // ---------------------------------------------------------------- copying, cutting and pasting

  /** Valid bytes replace the selection as one splice, when both calls go through. */
  lemma PasteIs(p: Pad, t: Text, h: Host)
    requires p.InBounds() && h.clipboard.HasText? && h.clipboard.utf8 == Encode(t)
    requires h.inserts && (p.Selecting() ==> h.deletes)
    ensures Step(p, Paste, h) == (p.Splice(p.Low(), p.High(), t), Applied)
  {
    DecodesExactlyEncodings(h.clipboard.utf8, t);
  }

  lemma SpliceBack(p: Pad)
    requires p.InBounds()
    ensures p.Splice(p.Low(), p.High(), []).Splice(p.Low(), p.Low(), p.Selection()) ==
            p.(cursor := p.High(), anchor := p.High())
  {
    var q := p.Splice(p.Low(), p.High(), []);
    assert q.text[..p.Low()] == p.text[..p.Low()] && q.text[p.Low()..] == p.text[p.High()..];
    assert p.text == p.text[..p.Low()] + p.Selection() + p.text[p.High()..];
  }

  /** Pasting what a cut put on the clipboard restores the text, with the caret behind it. */
  lemma CutThenPasteRestores(p: Pad, cut: Host, paste: Host)
    requires p.InBounds() && p.Selecting() && Step(p, Cut, cut).1.Applied?
    requires Copied(p, Cut, cut).Some? && paste.clipboard == HasText(Copied(p, Cut, cut).value) && paste.inserts
    ensures Run(p, [Event(Cut, cut), Event(Paste, paste)]) == p.(cursor := p.High(), anchor := p.High())
  {
    var q := Step(p, Cut, cut).0;
    StepKeepsBounds(p, Cut, cut);
    assert q == p.Splice(p.Low(), p.High(), []);
    PasteIs(q, p.Selection(), paste);
    SpliceBack(p);
    RunTwo(p, Event(Cut, cut), Event(Paste, paste));
  }

  lemma RunTwo(p: Pad, d: Event, e: Event)
    requires p.InBounds()
    ensures Step(p, d.action, d.host).0.InBounds()
    ensures Run(p, [d, e]) == Step(Step(p, d.action, d.host).0, e.action, e.host).0
  {
    StepKeepsBounds(p, d.action, d.host);
    var q := Step(p, d.action, d.host).0;
    StepKeepsBounds(q, e.action, e.host);
    assert [d, e][1..] == [e] && [e][1..] == [];
    assert Run(q, [e]) == Step(q, e.action, e.host).0;
  }

  /** Copying and pasting over the same selection leaves the text alone. */
  lemma CopyThenPasteKeepsText(p: Pad, copy: Host, paste: Host)
    requires p.InBounds() && p.Selecting() && Copied(p, Copy, copy).Some?
    requires paste.clipboard == HasText(Copied(p, Copy, copy).value) && paste.deletes && paste.inserts
    ensures Step(p, Copy, copy).0 == p
    ensures Step(p, Paste, paste).0 == p.(cursor := p.High(), anchor := p.High())
  {
    PasteIs(p, p.Selection(), paste);
    SpliceTwice(p, p.Low(), p.High(), [], p.Selection());
    SpliceBack(p);
  }

  // ---------------------------------------------------------------- typing

  /**
   * Typing a number stores that code point exactly when it is one; surrogates are refused, and a larger
   * number is refused or stored as another code point, its value modulo 2 to the 22nd.
   */
  lemma TypingStores(p: Pad, n: U32, h: Host)
    requires p.InBounds() && h.deletes && h.inserts && n != 0x0D && n != 0x0A
    ensures Step(p, InsertCodepoint(n), h) ==
            if Stored(n).Some? then (p.Splice(p.Low(), p.High(), Stored(n).value), Applied)
            else (p.Erase(p.Low(), p.High()), RecoverableError)
    ensures Stored(n) == Some([n]) <==> IsScalar(n)
  {
    StoredIsDecoded(n);
    StoredIsSame(n);
    InsertIs(p, n, EncodeOne(n), h);
  }

  lemma InsertIs(p: Pad, n: U32, utf8: seq<Byte>, h: Host)
    requires p.InBounds() && h.deletes && h.inserts && utf8 == EncodeOne(Typed(n))
    ensures Step(p, InsertCodepoint(n), h) == Did(Replace(p, p.Low(), p.High(), utf8, h))
  {
  }

  /** Typing 0x401F600 stores the code point 0x1F600. */
  lemma TypingStoresAnother(p: Pad, n: U32, h: Host)
    requires p.InBounds() && h.deletes && h.inserts && n == 0x0401_F600
    ensures !IsScalar(n) && Step(p, InsertCodepoint(n), h) == (p.Splice(p.Low(), p.High(), [0x1_F600]), Applied)
  {
    StoredAnother(n);
    TypingStores(p, n, h);
  }

  lemma StoredAnother(n: U32)
    requires n == 0x0401_F600
    ensures Stored(n) == Some([0x1_F600]) && !IsScalar(n)
  {
  }

  function Keystrokes(t: Text, h: Host): seq<Event> {
    if t == [] then [] else [Event(InsertCodepoint(t[0]), h)] + Keystrokes(t[1..], h)
  }

  lemma SpliceTwice(p: Pad, start: nat, end: nat, s: Text, t: Text)
    requires start <= end <= |p.text|
    ensures var q := p.Splice(start, end, s);
            q.Splice(start + |s|, start + |s|, t) == p.Splice(start, end, s + t)
  {
    var q := p.Splice(start, end, s);
    assert q.text[..start + |s|] == p.text[..start] + s && q.text[start + |s|..] == p.text[end..];
  }

  /** Typing a line one code point at a time does what pasting its encoding does. */
  lemma {:induction false} TypingIsPasting(p: Pad, t: Text, h: Host)
    requires p.InBounds() && t != [] && h.deletes && h.inserts && 0x0A !in t && 0x0D !in t
    requires h.clipboard == HasText(Encode(t))
    ensures Run(p, Keystrokes(t, h)) == Step(p, Paste, h).0 == p.Splice(p.Low(), p.High(), t)
  {
    PasteIs(p, t, h);
    TypeAll(p, t, h);
  }

  lemma {:induction false} TypeAll(p: Pad, t: Text, h: Host)
    requires p.InBounds() && t != [] && h.deletes && h.inserts && 0x0A !in t && 0x0D !in t
    ensures Run(p, Keystrokes(t, h)) == p.Splice(p.Low(), p.High(), t)
    decreases |t|
  {
    var first, rest := Keystrokes(t, h)[0], Keystrokes(t, h)[1..];
    TypingStores(p, t[0], h);
    StepKeepsBounds(p, first.action, h);
    var q := Step(p, first.action, h).0;
    assert q == p.Splice(p.Low(), p.High(), [t[0]]);
    assert rest == Keystrokes(t[1..], h);
    if |t| > 1 {
      TypeAll(q, t[1..], h);
      SpliceTwice(p, p.Low(), p.High(), [t[0]], t[1..]);
      assert [t[0]] + t[1..] == t;
    } else {
      assert t == [t[0]];
    }
  }

  /** Deleting to the left takes back one typed code point. */
  lemma DeleteLeftUndoesTyping(p: Pad, n: Codepoint, h: Host)
    requires p.InBounds() && !p.Selecting() && n != 0x0A && n != 0x0D && h.exports && h.deletes && h.inserts
    ensures Run(p, [Event(InsertCodepoint(n), h), Event(DeleteLeft(Flags(false, false, false)), h)]) == p
  {
    TypingStores(p, n, h);
    var q := Step(p, InsertCodepoint(n), h).0;
    assert q.text[..p.cursor] == p.text[..p.cursor] && q.text[p.cursor + 1..] == p.text[p.cursor..];
    assert p.text[..p.cursor] + [] + p.text[p.cursor..] == p.text;
    RunTwo(p, Event(InsertCodepoint(n), h), Event(DeleteLeft(Flags(false, false, false)), h));
  }

  lemma SpliceAll(p: Pad, t: Text)
    ensures p.Splice(0, |p.text|, t) == Pad(t, |t|, |t|, p.running)
  {
    assert p.text[..0] + t + p.text[|p.text|..] == t;
  }

  // ---------------------------------------------------------------- motion and deletion agree

  /** Deleting sideways is selecting by the same motion and deleting the selection. */
  lemma DeletionIsSelectThenDelete(p: Pad, left: bool, f: Flags, h: Host)
    requires p.InBounds() && !p.Selecting() && h.exports && h.deletes
    ensures var move := if left then MoveLeft(f.(selecting := true)) else MoveRight(f.(selecting := true));
            var delete := if left then DeleteLeft(f) else DeleteRight(f);
            Run(p, [Event(move, h), Event(delete, h)]) == Step(p, delete, h).0
  {
    LeftTargetBounds(p, f);
    RightTargetBounds(p, f);
    assert f.(selecting := true).ByWord() == f.ByWord();
    var move := if left then MoveLeft(f.(selecting := true)) else MoveRight(f.(selecting := true));
    RunTwo(p, Event(move, h), Event(if left then DeleteLeft(f) else DeleteRight(f), h));
  }

  /** A motion that is not already at the edge makes progress, and never leaves the text. */
  lemma MotionIsStrict(p: Pad, f: Flags, h: Host)
    requires p.InBounds() && h.exports
    ensures p.cursor > 0 <==> Step(p, MoveLeft(f), h).0.cursor < p.cursor
    ensures p.cursor < |p.text| <==> Step(p, MoveRight(f), h).0.cursor > p.cursor
  {
    LeftTargetBounds(p, f);
    RightTargetBounds(p, f);
  }

  /** Selecting everything and pasting replaces the whole text, or erases it when the bytes are not UTF-8. */
  lemma SelectAllThenPasteReplaces(p: Pad, h: Host)
    requires p.InBounds() && h.clipboard.HasText? && h.deletes && h.inserts
    ensures var q := Step(Step(p, SelectAll, h).0, Paste, h).0;
            var t := if Decode(h.clipboard.utf8).Some? then Decode(h.clipboard.utf8).value else [];
            q.text == t && (p.text != [] || t != [] ==> q.cursor == q.anchor == |t|)
  {
    var q := Step(p, SelectAll, h).0;
    SpliceAll(q, []);
    if Decode(h.clipboard.utf8).Some? {
      SpliceAll(q, Decode(h.clipboard.utf8).value);
    }
  }
}
