/** The RAM file table and the text editor that works on one of its slots. */
module Files {
  const MAX_FILES := 10
  const MAX_NAME := 32
  const MAX_SIZE := 4096
  const NUL: char := '\0'
  const ESC: char := 27 as char
  const BACKSPACE: char := 8 as char
  const DELETE: char := 127 as char

  /** The characters before the terminator. */
  function CString(b: seq<char>): (r: string)
    ensures NUL !in r && r <= b
    ensures |r| < |b| ==> b[|r|] == NUL
  {
    if b == [] || b[0] == NUL then [] else [b[0]] + CString(b[1..])
  }

  /** A name as callers pass it: characters before a terminator. */
  type Name = s: string | NUL !in s

  /** A slot: `name` and `data` are whole buffers, terminator and stale characters included. */
  datatype File = File(name: seq<char>, data: seq<char>, size: int, used: bool)

  type Slots = f: seq<File> | |f| == MAX_FILES && forall i | 0 <= i < MAX_FILES :: |f[i].name| == MAX_NAME && |f[i].data| == MAX_SIZE
    witness seq(MAX_FILES, _ => File(seq(MAX_NAME, _ => NUL), seq(MAX_SIZE, _ => NUL), 0, false))

  // ----- lookup and creation

  /** `strcmp` of a stored name against an argument. */
  predicate Named(f: File, name: Name) { f.used && CString(f.name) == name }

  /** `vfs_open`: the first slot of that name, or the number of slots. */
  function Open(slots: Slots, name: Name, from: nat := 0): (r: nat)
    requires from <= MAX_FILES
    ensures from <= r <= MAX_FILES
    ensures r < MAX_FILES ==> Named(slots[r], name)
    ensures forall j | from <= j < r :: !Named(slots[j], name)
    decreases MAX_FILES - from
  {
    if from == MAX_FILES || Named(slots[from], name) then from else Open(slots, name, from + 1)
  }

  function Free(slots: Slots, from: nat := 0): (r: nat)
    requires from <= MAX_FILES
    ensures from <= r <= MAX_FILES
    ensures r < MAX_FILES ==> !slots[r].used
    ensures forall j | from <= j < r :: slots[j].used
    decreases MAX_FILES - from
  {
    if from == MAX_FILES || !slots[from].used then from else Free(slots, from + 1)
  }

  function Truncated(name: Name): Name {
    if |name| < MAX_NAME then name else name[..MAX_NAME - 1]
  }

  function NewFile(f: File, name: Name): File
    requires |f.name| == MAX_NAME && |f.data| == MAX_SIZE
  {
    var n := Truncated(name);
    File(n + [NUL] + f.name[|n| + 1..], f.data[0 := NUL], 0, true)
  }

  /** `vfs_create`: the new slots and the index returned, the number of slots for NULL. */
  function Create(slots: Slots, name: Name): (Slots, nat) {
    var found := Open(slots, name);
    if found < MAX_FILES then (slots, found) else
    var free := Free(slots);
    if free == MAX_FILES then (slots, free) else (slots[free := NewFile(slots[free], name)], free)
  }

  lemma {:induction false} CStringStops(s: Name, rest: seq<char>)
    ensures CString(s + [NUL] + rest) == s
  {
    if s == [] {
      assert (s + [NUL] + rest)[0] == NUL;
    } else {
      assert (s + [NUL] + rest)[1..] == s[1..] + [NUL] + rest;
      CStringStops(s[1..], rest);
    }
  }

  /** A new file takes the first free slot, empty, under the first 31 characters of its name; and it
      is found again exactly when its name was not cut off. */
  lemma CreatedIsFound(slots: Slots, name: Name)
    requires Open(slots, name) == MAX_FILES && Free(slots) < MAX_FILES
    ensures var (after, i) := Create(slots, name);
            && (Open(after, name) == i <==> |name| < 32)
            && i < 10 && !slots[i].used && (forall j | 0 <= j < i :: slots[j].used)
            && after[i].used && after[i].size == 0 && after[i].data[0] == '\0'
            && CString(after[i].name) == (if |name| < 32 then name else name[..31])
            && forall j | 0 <= j < 10 && j != i :: after[j] == slots[j]
  {
    var (after, i) := Create(slots, name);
    var n := Truncated(name);
    CStringStops(n, slots[i].name[|n| + 1..]);
    assert CString(after[i].name) == n;
    assert n == name <==> |name| < MAX_NAME;
    assert forall j | 0 <= j < i :: after[j] == slots[j];
    assert Named(after[i], name) <==> |name| < MAX_NAME;
  }

  // ----- keystrokes

  /** `editor_handle_key` on the file being edited, for every key but ESC. */
  function Typed(f: File, c: char): File
    requires |f.data| == MAX_SIZE && 0 <= f.size < MAX_SIZE
  {
    if c == BACKSPACE || c == DELETE then
      if f.size > 0 then f.(size := f.size - 1, data := f.data[f.size - 1 := NUL]) else f
    else if f.size < MAX_SIZE - 1 then
      f.(data := f.data[f.size := c][f.size + 1 := NUL], size := f.size + 1)
    else f
  }

  // ----- what the slots stand for: a list of names and texts

  datatype Entry = Entry(name: Name, text: string)

  function Position(files: seq<Entry>, name: Name): (r: nat)
    ensures r <= |files|
    ensures r < |files| ==> files[r].name == name
    ensures forall j | 0 <= j < r :: files[j].name != name
  {
    if files == [] || files[0].name == name then 0 else 1 + Position(files[1..], name)
  }

  /** Characters 8 and 127 take the last one away, any other is added up to 4095. */
  function Edited(text: string, c: char): string {
    if c as int == 8 || c as int == 127 then (if text == [] then [] else text[..|text| - 1])
    else if |text| < 4095 then text + [c] else text
  }

  /** A slot in use holds a text of at most 4095 characters with a terminator at `size`. */
  ghost predicate Holds(f: File, e: Entry) {
    && f.used && CString(f.name) == e.name
    && |f.data| == MAX_SIZE && 0 <= f.size < MAX_SIZE
    && f.data[..f.size] == e.text && f.data[f.size] == NUL
  }

  ghost predicate Represents(slots: Slots, files: seq<Entry>) {
    && |files| <= MAX_FILES
    && (forall i | 0 <= i < |files| :: Holds(slots[i], files[i]))
    && (forall i | |files| <= i < MAX_FILES :: !slots[i].used)
    && (forall i, j | 0 <= i < j < |files| :: files[i].name != files[j].name)
  }

  lemma TypedHolds(f: File, e: Entry, c: char)
    requires Holds(f, e)
    ensures Holds(Typed(f, c), Entry(e.name, Edited(e.text, c)))
  {
    var g := Typed(f, c);
    assert g.data[..g.size] == Edited(e.text, c);
  }

  lemma OpenFinds(slots: Slots, files: seq<Entry>, name: Name)
    requires Represents(slots, files)
    ensures Open(slots, name) == if Position(files, name) < |files| then Position(files, name) else MAX_FILES
    ensures Free(slots) == |files|
  {
    var p := Position(files, name);
    assert forall i | 0 <= i < |files| :: Holds(slots[i], files[i]);
    assert p < |files| ==> Named(slots[p], name);
  }

  lemma NewFileHolds(f: File, name: Name)
    requires |f.name| == MAX_NAME && |f.data| == MAX_SIZE && |name| < MAX_NAME
    ensures Holds(NewFile(f, name), Entry(name, []))
  {
    CStringStops(name, f.name[|name| + 1..]);
  }

  lemma WrittenHolds(slots: Slots, files: seq<Entry>, i: nat, text: string)
    requires Represents(slots, files) && i < |files| && |text| < MAX_SIZE
    ensures i < MAX_FILES && Holds(Written(slots[i], text), Entry(files[i].name, text))
  {
    assert Holds(slots[i], files[i]);
    assert Written(slots[i], text).data[..|text|] == text;
  }

  // ----- whole sessions

  /** Commands `edit <name>` and keystrokes, as the shell passes them on. */
  datatype Event = Edit(name: Name) | Key(c: char)

  /** The slots, `current_file` (the number of slots for NULL) and `in_editor_mode`. */
  datatype State = State(slots: Slots, current: nat, editing: bool)

  function Handle(s: State, e: Event): State {
    match e
    case Edit(name) =>
      if s.editing then s else
      var (slots, i) := Create(s.slots, name);
      State(slots, i, i < MAX_FILES)
    case Key(c) =>
      if !s.editing || s.current >= MAX_FILES then s
      else if c == ESC then s.(editing := false)
      else if 0 <= s.slots[s.current].size < MAX_SIZE then
        s.(slots := s.slots[s.current := Typed(s.slots[s.current], c)])
      else s
  }

  function Run(s: State, events: seq<Event>): State {
    if events == [] then s else Handle(Run(s, events[..|events| - 1]), events[|events| - 1])
  }

  /** The same session on a list of files: at most ten, the edited one by its position. */
  datatype Session = Session(files: seq<Entry>, current: nat, editing: bool)

  function HandleFiles(s: Session, e: Event): Session {
    match e
    case Edit(name) =>
      if s.editing then s else
      var p := Position(s.files, name);
      if p < |s.files| then Session(s.files, p, true)
      else if |s.files| < 10 then Session(s.files + [Entry(name, [])], p, true)
      else Session(s.files, 10, false)
    case Key(c) =>
      if !s.editing || s.current >= |s.files| then s
      else if c as int == 27 then s.(editing := false)
      else s.(files := s.files[s.current := Entry(s.files[s.current].name, Edited(s.files[s.current].text, c))])
  }

  function RunFiles(s: Session, events: seq<Event>): Session {
    if events == [] then s else HandleFiles(RunFiles(s, events[..|events| - 1]), events[|events| - 1])
  }

  ghost predicate Refines(s: State, a: Session) {
    && Represents(s.slots, a.files) && s.current == a.current && s.editing == a.editing
    && (s.editing ==> s.current < |a.files|)
  }

  predicate ShortName(e: Event) { e.Edit? ==> |e.name| < 32 }

  /** Creating a file of a short name appends an empty text, unless it exists or nothing is free. */
  lemma CreateRepresents(slots: Slots, files: seq<Entry>, name: Name)
    requires Represents(slots, files) && |name| < MAX_NAME
    ensures |files| <= MAX_FILES
    ensures var (after, i) := Create(slots, name); var p := Position(files, name);
            if p < |files| then after == slots && i == p
            else if |files| < MAX_FILES then i == |files| && Represents(after, files + [Entry(name, [])])
            else after == slots && i == MAX_FILES
  {
    OpenFinds(slots, files, name);
    if Position(files, name) == |files| < MAX_FILES {
      NewFileHolds(slots[|files|], name);
      AppendRepresents(slots, files, NewFile(slots[|files|], name), Entry(name, []));
    }
    hide Represents, NewFile, Position, Open, Free;
  }

  lemma AppendRepresents(slots: Slots, files: seq<Entry>, f: File, e: Entry)
    requires Represents(slots, files) && |files| < MAX_FILES && |f.name| == MAX_NAME
    requires Holds(f, e) && forall i | 0 <= i < |files| :: files[i].name != e.name
    ensures |f.data| == MAX_SIZE && Represents(slots[|files| := f], files + [e])
  {
    HoldsSize(f, e);
    hide Holds;
  }

  lemma ReplaceRepresents(slots: Slots, files: seq<Entry>, i: nat, f: File, text: string)
    requires Represents(slots, files) && i < |files| && |f.name| == MAX_NAME
    requires Holds(f, Entry(files[i].name, text))
    ensures |f.data| == MAX_SIZE && i < MAX_FILES
    ensures Represents(slots[i := f], files[i := Entry(files[i].name, text)])
  {
    HoldsSize(f, Entry(files[i].name, text));
    hide Holds;
  }

  lemma KeyRepresents(slots: Slots, files: seq<Entry>, i: nat, c: char)
    requires Represents(slots, files) && i < |files|
    ensures i < MAX_FILES && 0 <= slots[i].size < MAX_SIZE
    ensures Represents(slots[i := Typed(slots[i], c)], files[i := Entry(files[i].name, Edited(files[i].text, c))])
  {
    assert Holds(slots[i], files[i]);
    TypedHolds(slots[i], files[i], c);
    HoldsSize(slots[i], files[i]);
    hide Holds, CString, Typed, Edited;
    ReplaceRepresents(slots, files, i, Typed(slots[i], c), Edited(files[i].text, c));
  }

  /** `strcpy` into the data of a file, and its `size`. */
  function Written(f: File, text: string): File
    requires |f.data| == MAX_SIZE && |text| < MAX_SIZE
  {
    f.(data := text + [NUL] + f.data[|text| + 1..], size := |text|)
  }

  /** The files that `vfs_init` leaves, and their texts. */
  const VERSION := "NKernel v1.0 (Unikernel Router) - x86_64\n"
  const README := "Welcome to NKernel VFS!\nThis file is stored in RAM.\nUse 'edit readme.txt' to modify it.\n"

  function Initial(): seq<Entry> { [Entry("version", VERSION), Entry("readme.txt", README)] }

  lemma HandleRefines(s: State, a: Session, e: Event)
    requires Refines(s, a) && ShortName(e)
    ensures Refines(Handle(s, e), HandleFiles(a, e))
  {
    hide Represents, Typed, Edited, Create;
    match e
    case Edit(name) => CreateRepresents(s.slots, a.files, name);
    case Key(c) => if s.editing { KeyRepresents(s.slots, a.files, s.current, c); }
  }

  lemma HoldsSize(f: File, e: Entry)
    requires Holds(f, e)
    ensures 0 <= f.size < MAX_SIZE == |f.data|
  {
  }

  /** Over every session with names under 32 characters the slots behave as a list of files with
      distinct names: opening finds what was created, typing changes one text only, and every text
      is the fold of the keys typed into it. */
  lemma {:induction false} SessionsRefine(s: State, a: Session, events: seq<Event>)
    requires Refines(s, a)
    requires forall e | e in events :: ShortName(e)
    ensures Refines(Run(s, events), RunFiles(a, events))
  {
    if events != [] {
      hide Refines, Handle, HandleFiles;
      SessionsRefine(s, a, events[..|events| - 1]);
      HandleRefines(Run(s, events[..|events| - 1]), RunFiles(a, events[..|events| - 1]), events[|events| - 1]);
    }
  }

  // ----- the program's own form

  class Editor {
    const nodes: array<File>
    var current: nat
    var editing: bool

    ghost predicate Valid()
      reads this, nodes
    {
      && nodes.Length == MAX_FILES
      && forall i | 0 <= i < MAX_FILES ::
           |nodes[i].name| == MAX_NAME && |nodes[i].data| == MAX_SIZE && 0 <= nodes[i].size < MAX_SIZE
    }

    ghost function View(): State
      requires Valid()
      reads this, nodes
    {
      State(nodes[..], current, editing)
    }

    constructor ()
      ensures Valid() && fresh(nodes) && !editing
      ensures forall i | 0 <= i < MAX_FILES :: !nodes[i].used
    {
      nodes := new File[MAX_FILES](_ => File(seq(MAX_NAME, _ => NUL), seq(MAX_SIZE, _ => NUL), 0, false));
      current, editing := MAX_FILES, false;
    }

    /** `vfs_init` */
    method Reset()
      requires Valid()
      modifies nodes
      ensures Valid() && Represents(nodes[..], Initial())
    {
      for i := 0 to MAX_FILES
        invariant forall j | 0 <= j < MAX_FILES :: |nodes[j].name| == MAX_NAME && |nodes[j].data| == MAX_SIZE
        invariant forall j | 0 <= j < MAX_FILES :: 0 <= nodes[j].size < MAX_SIZE && (j < i ==> !nodes[j].used)
      {
        nodes[i] := nodes[i].(used := false, size := 0);
      }
      hide Holds, CString, NewFile;
      AddDefault([], "version", VERSION);
      AddDefault([Entry("version", VERSION)], "readme.txt", README);
    }

    /** Creates a file and writes its text. */
    method AddDefault(ghost files: seq<Entry>, name: Name, text: string)
      requires Valid() && Represents(nodes[..], files) && |files| < MAX_FILES
      requires |name| < MAX_NAME && |text| < MAX_SIZE && Position(files, name) == |files|
      modifies nodes
      ensures Valid() && Represents(nodes[..], files + [Entry(name, text)])
    {
      hide Holds, CString, NewFile, Represents, Position, Create;
      CreateRepresents(nodes[..], files, name);
      var i := CreateFile(name);
      ghost var slots, more := nodes[..], files + [Entry(name, [])];
      WrittenHolds(slots, more, i, text);
      ReplaceRepresents(slots, more, i, Written(nodes[i], text), text);
      nodes[i] := nodes[i].(data := text + [NUL] + nodes[i].data[|text| + 1..]);
      nodes[i] := nodes[i].(size := |text|);
      assert nodes[..] == slots[i := Written(slots[i], text)];
      assert more[i := Entry(name, text)] == files + [Entry(name, text)];
    }

    /** `vfs_open` */
    method OpenFile(name: Name) returns (i: nat)
      requires Valid()
      ensures i == Open(nodes[..], name)
    {
      hide CString;
      i := 0;
      while i < MAX_FILES && !Named(nodes[i], name)
        invariant 0 <= i <= MAX_FILES
        invariant Open(nodes[..], name) == Open(nodes[..], name, i)
      {
        i := i + 1;
      }
    }

    /** `vfs_create` */
    method CreateFile(name: Name) returns (i: nat)
      requires Valid()
      modifies nodes
      ensures Valid() && (nodes[..], i) == Create(old(nodes[..]), name)
    {
      hide CString;
      i := OpenFile(name);
      if i < MAX_FILES {
        return;
      }
      i := 0;
      while i < MAX_FILES && nodes[i].used
        invariant 0 <= i <= MAX_FILES
        invariant Free(nodes[..]) == Free(nodes[..], i)
      {
        i := i + 1;
      }
      if i < MAX_FILES {
        var n := CopyName(nodes[i].name, name);
        nodes[i] := File(n, nodes[i].data[0 := NUL], 0, true);
      }
    }

    /** The bounded copy loop with its terminator. */
    method CopyName(buffer: seq<char>, name: Name) returns (n: seq<char>)
      requires |buffer| == MAX_NAME
      ensures n == Truncated(name) + [NUL] + buffer[|Truncated(name)| + 1..]
    {
      n := buffer;
      var j := 0;
      while j < |name| && j < MAX_NAME - 1
        invariant 0 <= j <= |name| && j <= MAX_NAME - 1 && |n| == MAX_NAME
        invariant forall k | 0 <= k < j :: n[k] == name[k]
        invariant forall k | j <= k < MAX_NAME :: n[k] == buffer[k]
      {
        n := n[j := name[j]];
        j := j + 1;
      }
      n := n[j := NUL];
    }

    /** `editor_start`, called from the shell only. */
    method Start(name: Name)
      requires Valid() && !editing
      modifies this, nodes
      ensures Valid() && View() == Handle(old(View()), Edit(name))
    {
      current := CreateFile(name);
      if current == MAX_FILES {
        return;
      }
      editing := true;
    }

    /** `editor_handle_key`, called while editing only. */
    method HandleKey(c: char)
      requires Valid() && editing && current < MAX_FILES
      modifies this, nodes
      ensures Valid() && View() == Handle(old(View()), Key(c))
    {
      if c == ESC {
        editing := false;
        return;
      }
      var f := nodes[current];
      if c == BACKSPACE || c == DELETE {
        if f.size > 0 {
          f := f.(size := f.size - 1);
          f := f.(data := f.data[f.size := NUL]);
        }
      } else if f.size < MAX_SIZE - 1 {
        f := f.(data := f.data[f.size := c], size := f.size + 1);
        f := f.(data := f.data[f.size := NUL]);
      }
      nodes[current] := f;
    }
  }
}
