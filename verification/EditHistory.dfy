/** The value of an editor buffer and its undo stack (apps/text_editor/buffer.c).

    `Doc` is what the gap buffer denotes: its text, cursor and undo slots.  `Step` says what
    one public call does to it.  The theorems relate every run of calls to a plain list of
    past texts (`Past`), which is what a user of undo and redo expects.
 */
module EditHistory {
  import opened Arith

  const UNDO_CAP: nat := 256

  datatype Edit = Insertion(pos: nat, text: string) | Deletion(pos: nat, text: string)

  /** An undo slot: `Raw` is memory that realloc handed out and nobody has written. */
  datatype Slot = Raw | Vacant | Holds(edit: Edit)

  datatype Doc = Doc(text: string, cursor: nat, slots: seq<Slot>, top: nat)

  datatype Op = Insert(pos: nat, text: string) | Delete(pos: nat, len: nat) | Undo | Redo

  const FRESH := Doc("", 0, [], 0)

  function Spliced(s: string, pos: nat, t: string): string
    requires pos <= |s|
  {
    s[..pos] + t + s[pos..]
  }

  function Cut(s: string, pos: nat, len: nat): string
    requires pos + len <= |s|
  {
    s[..pos] + s[pos + len..]
  }

  // ---------------------------------------------------------------- text and cursor

  /** Text and cursor after an insertion of `t`, leaving the undo slots alone. */
  function Inserted(d: Doc, pos: nat, t: string): Doc {
    var p := Min(pos, |d.text|);
    d.(text := Spliced(d.text, p, t),
       cursor := if d.cursor >= p then d.cursor + |t| else d.cursor)
  }

  /** Text and cursor after a deletion, leaving the undo slots alone. */
  function Deleted(d: Doc, pos: nat, len: nat): Doc
    requires pos < |d.text|
  {
    var n := Min(len, |d.text| - pos);
    d.(text := Cut(d.text, pos, n),
       cursor := if d.cursor <= pos then d.cursor
       else if d.cursor <= pos + n then pos else d.cursor - n)
  }

  /** Outside the edited range the cursor stays on the character it was on. */
  lemma CursorTracksInsert(d: Doc, pos: nat, t: string)
    requires d.cursor <= |d.text|
    ensures Inserted(d, pos, t).cursor <= |Inserted(d, pos, t).text|
    ensures d.cursor < |d.text| ==>
      Inserted(d, pos, t).text[Inserted(d, pos, t).cursor] == d.text[d.cursor]
    ensures d.text[d.cursor..] == Inserted(d, pos, t).text[Inserted(d, pos, t).cursor..]
      || d.text[..d.cursor] == Inserted(d, pos, t).text[..Inserted(d, pos, t).cursor]
  {
    var p := Min(pos, |d.text|);
    var e := Inserted(d, pos, t);
    if d.cursor >= p {
      assert e.text[e.cursor..] == d.text[d.cursor..];
    } else {
      assert e.text[..e.cursor] == d.text[..d.cursor];
    }
  }

  lemma CursorTracksDelete(d: Doc, pos: nat, len: nat)
    requires d.cursor <= |d.text| && pos < |d.text|
    ensures Deleted(d, pos, len).cursor <= |Deleted(d, pos, len).text|
    ensures d.cursor < pos || pos + len <= d.cursor < |d.text| ==>
      Deleted(d, pos, len).cursor < |Deleted(d, pos, len).text|
      && Deleted(d, pos, len).text[Deleted(d, pos, len).cursor] == d.text[d.cursor]
    ensures pos <= d.cursor <= pos + len ==> Deleted(d, pos, len).cursor == pos
    ensures d.cursor >= pos + len ==>
      Deleted(d, pos, len).text[Deleted(d, pos, len).cursor..] == d.text[d.cursor..]
  {
    var e := Deleted(d, pos, len);
    if d.cursor >= pos + len {
      assert e.text[e.cursor..] == d.text[d.cursor..];
    }
  }

  // ---------------------------------------------------------------- undo slots

  function Fill(n: nat, s: Slot): (r: seq<Slot>)
    ensures |r| == n && forall i :: 0 <= i < n ==> r[i] == s
  {
    seq(n, _ => s)
  }

  /** Clearing frees every slot from `top` on, which is defined only on initialised slots. */
  predicate Clearable(d: Doc) {
    d.top <= |d.slots| && forall i :: d.top <= i < |d.slots| ==> d.slots[i] != Raw
  }

  function Stacked(slots: seq<Slot>, top: nat, e: Edit): seq<Slot>
    requires top <= |slots|
  {
    var stack := if slots == [] then Fill(UNDO_CAP, Vacant) else slots;
    var cleared := stack[..top] + Fill(|stack| - top, Vacant);
    var grown := if top >= |cleared| then cleared + Fill(|cleared|, Raw) else cleared;
    grown[top := Holds(e)]
  }

  function Push(d: Doc, e: Edit): Doc
    requires Clearable(d)
  {
    d.(slots := Stacked(d.slots, d.top, e), top := d.top + 1)
  }

  function Undone(d: Doc, e: Edit): Doc {
    match e
    case Insertion(pos, t) =>
      (if pos < |d.text| then Deleted(d, pos, |t|) else d).(cursor := pos)
    case Deletion(pos, t) =>
      Inserted(d, pos, t).(cursor := pos + |t|)
  }

  function Redone(d: Doc, e: Edit): Doc {
    match e
    case Insertion(pos, t) =>
      Inserted(d, pos, t).(cursor := pos + |t|)
    case Deletion(pos, t) =>
      (if pos < |d.text| then Deleted(d, pos, |t|) else d).(cursor := pos)
  }

  // ---------------------------------------------------------------- one call

  /** The call changes the text and records an edit (the C function returns 0). */
  predicate Effective(d: Doc, op: Op) {
    match op
    case Insert(_, t) => t != ""
    case Delete(pos, len) => len != 0 && pos < |d.text|
    case Undo => d.top != 0
    case Redo => d.top < |d.slots| && d.slots[d.top] != Vacant
  }

  predicate IsEdit(op: Op) {
    op.Insert? || op.Delete?
  }

  /** The call touches only memory that has been initialised. */
  predicate Defined(d: Doc, op: Op) {
    Effective(d, op) ==>
      match op
      case Undo => d.top <= |d.slots| && d.slots[d.top - 1].Holds?
      case Redo => d.slots[d.top].Holds?
      case _ => Clearable(d)
  }

  function Step(d: Doc, op: Op): Doc
    requires Defined(d, op)
  {
    if !Effective(d, op) then d
    else match op
      case Insert(pos, t) =>
        Push(Inserted(d, pos, t), Insertion(Min(pos, |d.text|), t))
      case Delete(pos, len) =>
        Push(Deleted(d, pos, len), Deletion(pos, d.text[pos..pos + Min(len, |d.text| - pos)]))
      case Undo =>
        Undone(d, d.slots[d.top - 1].edit).(top := d.top - 1)
      case Redo =>
        Redone(d, d.slots[d.top].edit).(top := d.top + 1)
  }

  /** What an edit does while an undo or redo is under way: the same, without recording it. */
  function Quiet(d: Doc, op: Op): Doc
    requires IsEdit(op)
  {
    if !Effective(d, op) then d
    else match op
      case Insert(pos, t) => Inserted(d, pos, t)
      case Delete(pos, len) => Deleted(d, pos, len)
  }

  /** Undo and redo in terms of quiet edits. */
  lemma QuietReplay(d: Doc, e: Edit)
    ensures Undone(d, e) ==
            Quiet(d, if e.Insertion? then Delete(e.pos, |e.text|) else Insert(e.pos, e.text))
            .(cursor := if e.Insertion? then e.pos else e.pos + |e.text|)
    ensures Redone(d, e) ==
            Quiet(d, if e.Insertion? then Insert(e.pos, e.text) else Delete(e.pos, |e.text|))
            .(cursor := if e.Insertion? then e.pos + |e.text| else e.pos)
  {
    if e.text == "" {
      assert Spliced(d.text, Min(e.pos, |d.text|), "") == d.text;
      assert e.pos < |d.text| ==> Cut(d.text, e.pos, 0) == d.text;
    }
  }

  /** Recording a deletion before making it comes to the same as after. */
  lemma PushThenDelete(d: Doc, pos: nat, len: nat)
    requires Effective(d, Delete(pos, len))
    ensures var n := Min(len, |d.text| - pos);
            Deleted(d, pos, n) == Quiet(d, Delete(pos, len))
    ensures Clearable(d) ==>
              var n := Min(len, |d.text| - pos);
              Step(d, Delete(pos, len))
              == Deleted(Push(d, Deletion(pos, d.text[pos..pos + n])), pos, n)
  {}

  // ---------------------------------------------------------------- the reference history

  /** What a user expects undo and redo to walk over. */
  datatype Past = Past(texts: seq<string>, now: nat)

  predicate Proper(h: Past) {
    h.now < |h.texts|
  }

  function EditedText(s: string, op: Op): string
    requires IsEdit(op)
  {
    match op
    case Insert(pos, t) => Spliced(s, Min(pos, |s|), t)
    case Delete(pos, len) =>
      if pos < |s| then Cut(s, pos, Min(len, |s| - pos)) else s
  }

  function PastStep(h: Past, op: Op): (r: Past)
    requires Proper(h)
    ensures Proper(r)
  {
    var s := h.texts[h.now];
    match op
    case Undo => if h.now == 0 then h else h.(now := h.now - 1)
    case Redo => if h.now + 1 < |h.texts| then h.(now := h.now + 1) else h
    case Insert(_, t) =>
      if t == "" then h else Past(h.texts[..h.now + 1] + [EditedText(s, op)], h.now + 1)
    case Delete(pos, len) =>
      if len == 0 || pos >= |s| then h
      else Past(h.texts[..h.now + 1] + [EditedText(s, op)], h.now + 1)
  }

  predicate Applies(e: Edit, s: string) {
    e.text != "" &&
    match e
    case Insertion(pos, _) => pos <= |s|
    case Deletion(pos, t) => pos + |t| <= |s| && s[pos..pos + |t|] == t
  }

  function After(e: Edit, s: string): string
    requires Applies(e, s)
  {
    match e
    case Insertion(pos, t) => Spliced(s, pos, t)
    case Deletion(pos, t) => Cut(s, pos, |t|)
  }

  predicate Linked(slots: seq<Slot>, texts: seq<string>)
    requires |texts| >= 1
  {
    |texts| - 1 <= |slots| &&
    forall i {:trigger slots[i]} :: 0 <= i < |texts| - 1 ==>
      slots[i].Holds? && Applies(slots[i].edit, texts[i]) &&
      After(slots[i].edit, texts[i]) == texts[i + 1]
  }

  /** The slots past the recorded ones: vacant, or raw once the stack has been reallocated. */
  predicate TailShape(slots: seq<Slot>, used: nat) {
    && |slots| in {0, UNDO_CAP, 2 * UNDO_CAP}
    && (|slots| == 2 * UNDO_CAP ==> used == UNDO_CAP + 1)
    && forall i :: used <= i < |slots| ==>
         slots[i] == if |slots| == UNDO_CAP then Vacant else Raw
  }

  /** The document is entry `now` of the history, and its slots are the links between entries. */
  ghost predicate Tells(d: Doc, h: Past) {
    && Proper(h)
    && d.top == h.now
    && d.text == h.texts[h.now]
    && d.cursor <= |d.text|
    && Linked(d.slots, h.texts)
    && TailShape(d.slots, |h.texts| - 1)
  }

  lemma ClearableExactly(d: Doc, h: Past)
    requires Tells(d, h)
    ensures Clearable(d) <==> |d.slots| <= UNDO_CAP
  {
    assert |d.slots| == 2 * UNDO_CAP ==> d.slots[UNDO_CAP + 1] == Raw;
  }

  /** In a reachable state the only undefined calls are those past the initial capacity. */
  lemma DefinedExactly(d: Doc, h: Past, op: Op)
    requires Tells(d, h)
    ensures IsEdit(op) && Effective(d, op) ==> (Defined(d, op) <==> |d.slots| <= UNDO_CAP)
    ensures op == Undo ==> Defined(d, op)
    ensures op == Redo ==> (Defined(d, op) <==> d.top <= UNDO_CAP)
  {
    ClearableExactly(d, h);
    assert |d.slots| == 2 * UNDO_CAP ==> d.slots[UNDO_CAP + 1] == Raw;
  }

  /** What a push leaves on the stack: the links kept, the new one, and unused slots after it. */
  lemma StackedShape(slots: seq<Slot>, top: nat, e: Edit)
    requires |slots| in {0, UNDO_CAP} && top <= |slots|
    ensures top < |Stacked(slots, top, e)| && Stacked(slots, top, e)[top] == Holds(e)
    ensures Stacked(slots, top, e)[..top] == slots[..top]
    ensures TailShape(Stacked(slots, top, e), top + 1)
  {}

  lemma LinkedMore(slots: seq<Slot>, texts: seq<string>, now: nat, p: seq<Slot>, e: Edit)
    requires now < |texts| && Linked(slots, texts) && Applies(e, texts[now])
    requires now < |p| && p[..now] == slots[..now] && p[now] == Holds(e)
    ensures Linked(p, texts[..now + 1] + [After(e, texts[now])])
  {
    var more := texts[..now + 1] + [After(e, texts[now])];
    forall i {:trigger p[i]} | 0 <= i < |more| - 1
      ensures p[i].Holds? && Applies(p[i].edit, more[i]) && After(p[i].edit, more[i]) == more[i + 1]
    {
      if i < now {
        assert p[i] == p[..now][i] == slots[i];
        assert more[i] == texts[i] && more[i + 1] == texts[i + 1];
      }
    }
  }

  lemma PushTells(d: Doc, h: Past, d': Doc, e: Edit)
    requires Tells(d, h) && Clearable(d)
    requires d'.slots == d.slots && d'.top == d.top && d'.cursor <= |d'.text|
    requires Applies(e, d.text) && After(e, d.text) == d'.text
    ensures Tells(Push(d', e), Past(h.texts[..h.now + 1] + [d'.text], h.now + 1))
  {
    ClearableExactly(d, h);
    StackedShape(d.slots, d.top, e);
    LinkedMore(d.slots, h.texts, h.now, Stacked(d.slots, d.top, e), e);
  }

  /** One link back: undoing an edit restores the text before it, redoing it the text after. */
  lemma UndoneRedone(d: Doc, e: Edit, s: string)
    requires Applies(e, s)
    ensures d.text == After(e, s) ==> Undone(d, e).text == s && Undone(d, e).cursor <= |s|
    ensures d.text == s ==>
      Redone(d, e).text == After(e, s) && Redone(d, e).cursor <= |After(e, s)|
  {
    match e
    case Insertion(pos, t) =>
      assert Cut(Spliced(s, pos, t), pos, |t|) == s;
    case Deletion(pos, t) =>
      assert Spliced(Cut(s, pos, |t|), pos, t) == s;
  }

  lemma InsertTells(d: Doc, h: Past, pos: nat, t: string)
    requires Tells(d, h) && Clearable(d) && t != ""
    ensures Tells(Step(d, Insert(pos, t)), PastStep(h, Insert(pos, t)))
  {
    CursorTracksInsert(d, pos, t);
    PushTells(d, h, Inserted(d, pos, t), Insertion(Min(pos, |d.text|), t));
  }

  lemma DeleteTells(d: Doc, h: Past, pos: nat, len: nat)
    requires Tells(d, h) && Clearable(d) && len != 0 && pos < |d.text|
    ensures Tells(Step(d, Delete(pos, len)), PastStep(h, Delete(pos, len)))
  {
    var d' := Deleted(d, pos, len);
    var n := Min(len, |d.text| - pos);
    var e := Deletion(pos, d.text[pos..pos + n]);
    assert d'.cursor <= |d'.text| by { CursorTracksDelete(d, pos, len); }
    DeleteSteps(d, h, pos, len, n);
    PushTells(d, h, d', e);
  }

  lemma DeleteSteps(d: Doc, h: Past, pos: nat, len: nat, n: nat)
    requires Tells(d, h) && Clearable(d) && len != 0 && pos < |d.text| && n == Min(len, |d.text| - pos)
    ensures var d', e := Deleted(d, pos, len), Deletion(pos, d.text[pos..pos + n]);
            && Applies(e, d.text) && After(e, d.text) == d'.text
            && Step(d, Delete(pos, len)) == Push(d', e)
            && PastStep(h, Delete(pos, len)) == Past(h.texts[..h.now + 1] + [d'.text], h.now + 1)
  {}

  lemma UndoTells(d: Doc, h: Past)
    requires Tells(d, h) && d.top != 0
    ensures Defined(d, Undo) && Tells(Step(d, Undo), h.(now := h.now - 1))
  {
    UndoneRedone(d, d.slots[d.top - 1].edit, h.texts[d.top - 1]);
  }

  lemma RedoTells(d: Doc, h: Past)
    requires Tells(d, h) && d.top + 1 < |h.texts|
    ensures Effective(d, Redo) && Defined(d, Redo)
    ensures Tells(Step(d, Redo), h.(now := h.now + 1))
  {
    UndoneRedone(d, d.slots[d.top].edit, h.texts[d.top]);
  }

  /** Every defined call keeps the document at the entry the reference history is at. */
  lemma StepTells(d: Doc, h: Past, op: Op)
    requires Tells(d, h) && Defined(d, op)
    ensures Tells(Step(d, op), PastStep(h, op))
  {
    if Effective(d, op) {
      match op
      case Insert(pos, t) => InsertTells(d, h, pos, t);
      case Delete(pos, len) => DeleteTells(d, h, pos, len);
      case Undo => UndoTells(d, h);
      case Redo =>
        assert d.slots[d.top].Holds?;
        RedoTells(d, h);
    }
  }

  // ---------------------------------------------------------------- whole runs

  predicate DefinedRun(d: Doc, ops: seq<Op>)
    decreases |ops|
  {
    ops == [] || (Defined(d, ops[0]) && DefinedRun(Step(d, ops[0]), ops[1..]))
  }

  function Run(d: Doc, ops: seq<Op>): Doc
    requires DefinedRun(d, ops)
    decreases |ops|
  {
    if ops == [] then d else Run(Step(d, ops[0]), ops[1..])
  }

  function PastRun(h: Past, ops: seq<Op>): (r: Past)
    requires Proper(h)
    ensures Proper(r)
    decreases |ops|
  {
    if ops == [] then h else PastRun(PastStep(h, ops[0]), ops[1..])
  }

  lemma {:induction false} RunTells(d: Doc, h: Past, ops: seq<Op>)
    requires Tells(d, h) && DefinedRun(d, ops)
    ensures Tells(Run(d, ops), PastRun(h, ops))
    decreases |ops|
  {
    if ops != [] {
      StepTells(d, h, ops[0]);
      RunTells(Step(d, ops[0]), PastStep(h, ops[0]), ops[1..]);
    }
  }

  const NO_PAST := Past([""], 0)

  /** Whether a call stays clear of the slots that growing the stack leaves uninitialised: no
      edit once the stack has grown, and no redo from its last record. */
  predicate StepFits(h: Past, op: Op)
    requires Proper(h)
  {
    match op
    case Undo => true
    case Redo => h.now <= UNDO_CAP
    case _ => PastStep(h, op) != h ==> |h.texts| <= UNDO_CAP + 1
  }

  predicate Fits(h: Past, ops: seq<Op>)
    requires Proper(h)
    decreases |ops|
  {
    ops == [] || (StepFits(h, ops[0]) && Fits(PastStep(h, ops[0]), ops[1..]))
  }

  lemma StepDefinedExactly(d: Doc, h: Past, op: Op)
    requires Tells(d, h)
    ensures Defined(d, op) <==> StepFits(h, op)
  {
    DefinedExactly(d, h, op);
    assert IsEdit(op) ==> (Effective(d, op) <==> PastStep(h, op).now == h.now + 1);
    assert |d.slots| <= UNDO_CAP <==> |h.texts| <= UNDO_CAP + 1;
  }

  /** A run is defined exactly when its reference history fits. */
  lemma {:induction false} RunDefinedExactly(d: Doc, h: Past, ops: seq<Op>)
    requires Tells(d, h)
    ensures DefinedRun(d, ops) <==> Fits(h, ops)
    decreases |ops|
  {
    if ops != [] {
      StepDefinedExactly(d, h, ops[0]);
      if Defined(d, ops[0]) {
        StepTells(d, h, ops[0]);
        RunDefinedExactly(Step(d, ops[0]), PastStep(h, ops[0]), ops[1..]);
      }
    }
  }

  /** Every run of a new buffer that fits, whatever its calls, is defined and shows the entry its
      reference history is at. */
  lemma RunIsHistory(ops: seq<Op>)
    requires Fits(NO_PAST, ops)
    ensures DefinedRun(FRESH, ops) && Tells(Run(FRESH, ops), PastRun(NO_PAST, ops))
    ensures Run(FRESH, ops).text == PastRun(NO_PAST, ops).texts[Run(FRESH, ops).top]
  {
    RunDefinedExactly(FRESH, NO_PAST, ops);
    RunTells(FRESH, NO_PAST, ops);
  }

  lemma {:induction false} ManyInserts(h: Past, k: nat)
    requires Proper(h) && h.now + 1 == |h.texts|
    ensures Fits(h, Repeat(Insert(0, "a"), k)) <==> h.now + k <= UNDO_CAP + 1 || k == 0
    decreases k
  {
    if k > 0 {
      var h1 := PastStep(h, Insert(0, "a"));
      ManyInserts(h1, k - 1);
      assert Repeat(Insert(0, "a"), k)[1..] == Repeat(Insert(0, "a"), k - 1);
    }
  }

  /** How many insertions in a row are defined: one more than the stack was cleared for. */
  lemma TooManyInserts(k: nat)
    ensures DefinedRun(FRESH, Repeat(Insert(0, "a"), k)) <==> k <= UNDO_CAP + 1
  {
    RunDefinedExactly(FRESH, NO_PAST, Repeat(Insert(0, "a"), k));
    ManyInserts(NO_PAST, k);
  }

  // ---------------------------------------------------------------- consequences

  function Repeat(op: Op, k: nat): (r: seq<Op>)
    ensures |r| == k && forall i :: 0 <= i < k ==> r[i] == op
  {
    seq(k, _ => op)
  }

  lemma {:induction false} WalkBack(d: Doc, h: Past, k: nat)
    requires Tells(d, h) && k <= d.top
    ensures DefinedRun(d, Repeat(Undo, k))
    ensures Tells(Run(d, Repeat(Undo, k)), h.(now := h.now - k))
    ensures Run(d, Repeat(Undo, k)).slots == d.slots
    decreases k
  {
    if k > 0 {
      UndoTells(d, h);
      var d1 := Step(d, Undo);
      WalkBack(d1, h.(now := h.now - 1), k - 1);
      assert Repeat(Undo, k)[1..] == Repeat(Undo, k - 1);
    }
  }

  lemma {:induction false} WalkForward(d: Doc, h: Past, k: nat)
    requires Tells(d, h) && d.top + k < |h.texts|
    ensures DefinedRun(d, Repeat(Redo, k))
    ensures Tells(Run(d, Repeat(Redo, k)), h.(now := h.now + k))
    ensures Run(d, Repeat(Redo, k)).slots == d.slots
    decreases k
  {
    if k > 0 {
      RedoTells(d, h);
      var d1 := Step(d, Redo);
      WalkForward(d1, h.(now := h.now + 1), k - 1);
      assert Repeat(Redo, k)[1..] == Repeat(Redo, k - 1);
    }
  }

  /** k undos show the text k entries back; k redos after them restore text, depth and slots. */
  lemma UndosThenRedos(d: Doc, h: Past, k: nat)
    requires Tells(d, h) && k <= d.top
    ensures DefinedRun(d, Repeat(Undo, k))
    ensures Run(d, Repeat(Undo, k)).text == h.texts[h.now - k]
    ensures DefinedRun(Run(d, Repeat(Undo, k)), Repeat(Redo, k))
    ensures var r := Run(Run(d, Repeat(Undo, k)), Repeat(Redo, k));
            r.text == d.text && r.top == d.top && r.slots == d.slots
  {
    WalkBack(d, h, k);
    WalkForward(Run(d, Repeat(Undo, k)), h.(now := h.now - k), k);
  }

  /** A new edit drops the redo tail: redo right after it does nothing. */
  lemma EditDropsRedo(d: Doc, h: Past, op: Op)
    requires Tells(d, h) && IsEdit(op) && Effective(d, op) && d.top < UNDO_CAP
    requires |d.slots| <= UNDO_CAP
    ensures Defined(d, op) && Step(Step(d, op), Redo) == Step(d, op)
  {
    DefinedExactly(d, h, op);
    StepTells(d, h, op);
  }

  predicate EffectiveEdits(d: Doc, ops: seq<Op>)
    decreases |ops|
  {
    ops == [] || (IsEdit(ops[0]) && Effective(d, ops[0]) && Defined(d, ops[0])
                  && EffectiveEdits(Step(d, ops[0]), ops[1..]))
  }

  lemma {:induction false} EffectiveAppend(d: Doc, ops: seq<Op>, op: Op)
    requires EffectiveEdits(d, ops) && DefinedRun(d, ops)
    requires var e := Run(d, ops); IsEdit(op) && Effective(e, op) && Defined(e, op)
    ensures EffectiveEdits(d, ops + [op]) && DefinedRun(d, ops + [op])
    ensures Run(d, ops + [op]) == Step(Run(d, ops), op)
    decreases |ops|
  {
    if ops == [] {
      assert (ops + [op])[0] == op && (ops + [op])[1..] == [];
    } else {
      EffectiveAppend(Step(d, ops[0]), ops[1..], op);
      assert (ops + [op])[0] == ops[0] && (ops + [op])[1..] == ops[1..] + [op];
    }
  }

  /** Room for `n` more records: all but the last must fit the stack as it is. */
  predicate Room(d: Doc, n: nat) {
    n == 0 ||
    (Clearable(d) && d.top + n <= (if d.slots == [] then UNDO_CAP else |d.slots|) + 1)
  }

  /** Edits that all take effect need that room, and no more. */
  lemma {:induction false} EditsNeedRoom(d: Doc, h: Past, ops: seq<Op>)
    requires Tells(d, h) && EffectiveEdits(d, ops)
    ensures Room(d, |ops|)
    decreases |ops|
  {
    if ops != [] {
      var e := Step(d, ops[0]);
      StepTells(d, h, ops[0]);
      EditsNeedRoom(e, PastStep(h, ops[0]), ops[1..]);
      ClearableExactly(d, h);
      if |ops| > 1 {
        ClearableExactly(e, PastStep(h, ops[0]));
      }
    }
  }

  lemma {:induction false} DefinedAppend(d: Doc, a: seq<Op>, b: seq<Op>)
    ensures DefinedRun(d, a + b) <==> DefinedRun(d, a) && DefinedRun(Run(d, a), b)
    decreases |a|
  {
    if a == [] {
      assert a + b == b;
    } else {
      assert (a + b)[1..] == a[1..] + b;
      if Defined(d, a[0]) {
        DefinedAppend(Step(d, a[0]), a[1..], b);
      }
    }
  }

  lemma RoomAfterEdit(d: Doc, n: nat, op: Op)
    requires n >= 1 && Room(d, n) && IsEdit(op) && Effective(d, op)
    ensures Defined(d, op) && Room(Step(d, op), n - 1)
  {}

  lemma {:induction false} EditsPast(d: Doc, h: Past, ops: seq<Op>)
    requires Tells(d, h) && EffectiveEdits(d, ops)
    ensures DefinedRun(d, ops)
    ensures PastRun(h, ops).now == h.now + |ops|
    ensures PastRun(h, ops).texts[h.now] == h.texts[h.now]
    decreases |ops|
  {
    if ops != [] {
      StepTells(d, h, ops[0]);
      var h1 := PastStep(h, ops[0]);
      assert h1.now == h.now + 1 && h1.texts[h.now] == h.texts[h.now];
      EditsPast(Step(d, ops[0]), h1, ops[1..]);
      EffectiveAreEdits(Step(d, ops[0]), ops[1..]);
      EditsKeepPast(h1, ops[1..], h.now);
    }
  }

  lemma {:induction false} EditsKeepPast(h: Past, ops: seq<Op>, i: nat)
    requires Proper(h) && i <= h.now && forall op :: op in ops ==> IsEdit(op)
    ensures i < |PastRun(h, ops).texts| && PastRun(h, ops).texts[i] == h.texts[i]
    decreases |ops|
  {
    if ops != [] {
      assert IsEdit(ops[0]);
      EditsKeepPast(PastStep(h, ops[0]), ops[1..], i);
    }
  }

  lemma {:induction false} EffectiveAreEdits(d: Doc, ops: seq<Op>)
    requires EffectiveEdits(d, ops)
    ensures forall op :: op in ops ==> IsEdit(op)
    decreases |ops|
  {
    if ops != [] {
      EffectiveAreEdits(Step(d, ops[0]), ops[1..]);
      assert ops == [ops[0]] + ops[1..];
    }
  }

  /** Any sequence of effective edits is taken back exactly by as many undos. */
  lemma EditsThenUndos(d: Doc, h: Past, ops: seq<Op>)
    requires Tells(d, h) && EffectiveEdits(d, ops)
    ensures DefinedRun(d, ops) && DefinedRun(Run(d, ops), Repeat(Undo, |ops|))
    ensures Run(Run(d, ops), Repeat(Undo, |ops|)).text == d.text
    ensures Run(Run(d, ops), Repeat(Undo, |ops|)).top == d.top
  {
    EditsPast(d, h, ops);
    RunTells(d, h, ops);
    UndosThenRedos(Run(d, ops), PastRun(h, ops), |ops|);
    WalkBack(Run(d, ops), PastRun(h, ops), |ops|);
  }
}
