/** Tab completion of the command line. */
module Completion {
  import opened Files

  const COMMANDS: seq<string> :=
    ["help", "ifconfig", "route print", "info", "save", "load", "ls", "exit", "clear", "ntop", "nat show", "cat ", "edit "]

  /** The k-th character of a C string, whose terminator can be read too. */
  function CharAt(s: string, k: nat): char { if k < |s| then s[k] else NUL }

  /** `strncmp(a, b, n) == 0`: equal characters until the count or a terminator is reached. */
  predicate SameStart(a: string, b: string, n: nat, k: nat := 0)
    decreases n - k
  {
    k >= n || (CharAt(a, k) == CharAt(b, k) && (CharAt(a, k) == NUL || SameStart(a, b, n, k + 1)))
  }

  /** Against a text of exactly `n` characters that means being its prefix. */
  lemma {:induction false} SameStartIsPrefix(a: Name, b: Name, k: nat)
    requires k <= |a| && k <= |b| && a[..k] == b[..k]
    ensures SameStart(a, b, |a|, k) <==> a <= b
    decreases |a| - k
  {
    if k < |a| {
      assert a[k] != NUL;
      if k < |b| && a[k] == b[k] {
        assert a[..k + 1] == a[..k] + [a[k]] && b[..k + 1] == b[..k] + [b[k]];
        SameStartIsPrefix(a, b, k + 1);
      }
    } else {
      assert a == a[..k];
    }
  }

  /** The first of the candidates that extends the text, or their number. */
  function FirstMatch(text: Name, candidates: seq<Name>, from: nat := 0): (r: nat)
    requires from <= |candidates|
    ensures from <= r <= |candidates|
    ensures r < |candidates| ==> text <= candidates[r]
    ensures forall j | from <= j < r :: !(text <= candidates[j])
    decreases |candidates| - from
  {
    if from == |candidates| || text <= candidates[from] then from else FirstMatch(text, candidates, from + 1)
  }

  /** The first file in use whose name extends the text, or the number of slots. */
  function FirstFile(text: Name, slots: Slots, from: nat := 0): (r: nat)
    requires from <= MAX_FILES
    ensures from <= r <= MAX_FILES
    ensures r < MAX_FILES ==> slots[r].used && text <= CString(slots[r].name)
    ensures forall j | from <= j < r :: !(slots[j].used && text <= CString(slots[j].name))
    decreases MAX_FILES - from
  {
    if from == MAX_FILES || (slots[from].used && text <= CString(slots[from].name)) then from
    else FirstFile(text, slots, from + 1)
  }

  /** How many characters precede the file name: 4 after `cat `, 5 after `edit `, none otherwise. */
  function PrefixLength(text: string): nat {
    if "cat " <= text then 4 else if "edit " <= text then 5 else 0
  }

  /** Replaces the tail of the text from `at` by the candidate, as far as the buffer reaches. */
  function Extended(text: string, at: nat, candidate: string, maxSize: nat): string
    requires at <= |text| && text[at..] <= candidate && |text| < maxSize
  {
    var full := text[..at] + candidate;
    if |full| < maxSize then full else full[..maxSize - 1]
  }

  function Commands(): seq<Name> { COMMANDS }

  /** `cli_autocomplete` on the text before the cursor. */
  function Complete(text: Name, slots: Slots, maxSize: nat): string
    requires |text| < maxSize
  {
    if text == [] then text else
    var i := FirstMatch(text, Commands());
    if i < |Commands()| then Extended(text, 0, Commands()[i], maxSize) else
    var at := PrefixLength(text);
    if at == 0 then text else
    var k := FirstFile(text[at..], slots);
    if k < MAX_FILES then Extended(text, at, CString(slots[k].name), maxSize) else text
  }

  // ----- the same in terms of prefixes and positions

  /** As much of the text as the buffer takes, one character being left for the terminator. */
  function Cut(s: string, maxSize: nat): string
    requires maxSize > 0
  {
    if |s| <= maxSize - 1 then s else s[..maxSize - 1]
  }

  /** Command i is the first that starts with the text. */
  predicate FirstCommand(text: string, i: nat) {
    i < |COMMANDS| && text <= COMMANDS[i] && forall j | 0 <= j < i :: !(text <= COMMANDS[j])
  }

  /** The text starts with `cat ` or `edit `, and its argument starts at `at`. */
  predicate ArgumentAt(text: string, at: nat) {
    at <= |text| && ((at == 4 && "cat " <= text) || (at == 5 && "edit " <= text))
  }

  predicate Extends(f: File, text: string) { f.used && text <= CString(f.name) }

  /** Slot k is the first in use whose name starts with the text. */
  predicate FirstSlot(text: string, slots: Slots, k: nat) {
    k < 10 && Extends(slots[k], text) && forall j | 0 <= j < k :: !Extends(slots[j], text)
  }

  /** What completion comes to: the first command that starts with the text; if there is none, the
      first file that starts with the argument of `cat` or `edit`; otherwise nothing changes. */
  ghost predicate Completes(text: string, slots: Slots, maxSize: nat, r: string)
    requires maxSize > 0
  {
    && (text == [] ==> r == [])
    && (forall i: nat | text != [] && FirstCommand(text, i) :: r == Cut(COMMANDS[i], maxSize))
    && (text != [] && (forall i | 0 <= i < |COMMANDS| :: !(text <= COMMANDS[i])) ==>
          && (forall at: nat, k: nat | ArgumentAt(text, at) && FirstSlot(text[at..], slots, k) ::
                r == Cut(text[..at] + CString(slots[k].name), maxSize))
          && ((forall at: nat, k | ArgumentAt(text, at) && 0 <= k < 10 :: !Extends(slots[k], text[at..])) ==> r == text))
  }

  lemma CompleteCompletes(text: Name, slots: Slots, maxSize: nat)
    requires |text| < maxSize
    ensures Completes(text, slots, maxSize, Complete(text, slots, maxSize))
  {
    hide CString, FirstMatch, FirstFile, Commands, PrefixLength, ArgumentAt, Extends, FirstSlot, FirstCommand;
    CommandList();
    if text != [] {
      forall i: nat
        ensures FirstCommand(text, i) <==> i == FirstMatch(text, Commands()) < |COMMANDS|
      {
        FirstCommandIs(text, i);
      }
      forall at: nat
        ensures ArgumentAt(text, at) <==> at == PrefixLength(text) != 0
      {
        ArgumentIs(text, at);
      }
      var i, at := FirstMatch(text, Commands()), PrefixLength(text);
      if i < |COMMANDS| {
        assert text[..0] + COMMANDS[i] == COMMANDS[i];
      } else if at != 0 {
        PrefixFits(text);
        forall k: nat
          ensures FirstSlot(text[at..], slots, k) <==> k == FirstFile(text[at..], slots) < 10
        {
          FirstSlotIs(text[at..], slots, k);
        }
        ExtendsAt(text[at..], slots);
      }
    }
  }

  lemma FirstCommandIs(text: Name, i: nat)
    ensures FirstCommand(text, i) <==> i == FirstMatch(text, Commands()) < |COMMANDS|
  {
  }

  lemma ArgumentIs(text: string, at: nat)
    ensures ArgumentAt(text, at) <==> at == PrefixLength(text) != 0
  {
    assert "cat " <= text ==> text[0] == 'c';
    assert "edit " <= text ==> text[0] == 'e';
  }

  lemma FirstSlotIs(text: Name, slots: Slots, k: nat)
    ensures FirstSlot(text, slots, k) <==> k == FirstFile(text, slots) < 10
  {
    hide CString;
  }

  lemma ExtendsAt(text: Name, slots: Slots)
    ensures FirstFile(text, slots) < 10 ==> Extends(slots[FirstFile(text, slots)], text)
  {
    hide CString;
  }

  lemma CommandList()
    ensures Commands() == COMMANDS
  {
  }

  /** For example. */
  lemma HelpCompleted(slots: Slots)
    ensures Complete("he", slots, 256) == "help" && Complete("if", slots, 256) == "ifconfig"
  {
    assert "he" <= COMMANDS[0] && "if" <= COMMANDS[1];
    assert "if"[0] == 'i' && COMMANDS[0][0] == 'h';
    CompleteCompletes("he", slots, 256);
    CompleteCompletes("if", slots, 256);
    hide Complete;
    assert FirstCommand("he", 0) && FirstCommand("if", 1);
  }

  lemma ExtendedFacts(text: Name, at: nat, candidate: Name, maxSize: nat)
    requires at <= |text| && text[at..] <= candidate && |text| < maxSize
    ensures var r := Extended(text, at, candidate, maxSize);
            && text <= r && |r| < maxSize && NUL !in r && r[..at] == text[..at] && r[at..] <= candidate
            && Extended(r, at, candidate, maxSize) == r
  {
    var full := text[..at] + candidate;
    assert text == text[..at] + text[at..];
    assert text <= full;
    var r := Extended(text, at, candidate, maxSize);
    assert r[at..] <= candidate;
    assert r[..at] + candidate == full;
  }

  /** A longer text that a candidate still extends has the same first match. */
  lemma SameFirstMatch(text: Name, longer: Name, candidates: seq<Name>)
    requires text <= longer
    requires var i := FirstMatch(text, candidates); i < |candidates| ==> longer <= candidates[i]
    ensures FirstMatch(longer, candidates) == FirstMatch(text, candidates)
  {
    var i, j := FirstMatch(text, candidates), FirstMatch(longer, candidates);
    assert j < |candidates| ==> text <= candidates[j];
  }

  lemma SameFirstFile(text: Name, longer: Name, slots: Slots)
    requires text <= longer
    requires var i := FirstFile(text, slots); i < MAX_FILES ==> longer <= CString(slots[i].name)
    ensures FirstFile(longer, slots) == FirstFile(text, slots)
  {
    hide CString;
    var i, j := FirstFile(text, slots), FirstFile(longer, slots);
    assert j < MAX_FILES ==> text <= CString(slots[j].name);
  }

  /** Completion only extends, stays inside the buffer, and a second one changes nothing. */
  lemma CompletesOnce(text: Name, slots: Slots, maxSize: nat)
    requires |text| < maxSize
    ensures var r := Complete(text, slots, maxSize);
            text <= r && |r| < maxSize && NUL !in r && Complete(r, slots, maxSize) == r
  {
    hide Commands, FirstMatch, FirstFile, Extended, PrefixLength, CString;
    if text != [] {
      var i := FirstMatch(text, Commands());
      var r := Complete(text, slots, maxSize);
      if i < |Commands()| {
        assert text[0..] == text;
        ExtendedFacts(text, 0, Commands()[i], maxSize);
        assert r[0..] == r;
        SameFirstMatch(text, r, Commands());
      } else if PrefixLength(text) > 0 {
        PrefixFits(text);
        var at := PrefixLength(text);
        var k := FirstFile(text[at..], slots);
        if k < MAX_FILES {
          ExtendedFacts(text, at, CString(slots[k].name), maxSize);
          SameFirstMatch(text, r, Commands());
          PrefixKept(text, r);
          SameFirstFile(text[at..], r[at..], slots);
        }
      }
    }
  }

  lemma PrefixFits(text: string)
    ensures PrefixLength(text) <= |text|
  {
  }

  lemma PrefixKept(text: string, longer: string)
    requires text <= longer && PrefixLength(text) > 0
    ensures PrefixLength(longer) == PrefixLength(text)
  {
  }

  // ----- the loops of the program

  /** The scan over the candidates with `strncmp`. */
  method Scan(text: Name, candidates: seq<Name>) returns (i: nat)
    ensures i == FirstMatch(text, candidates)
  {
    i := 0;
    while i < |candidates| && !SameStart(text, candidates[i], |text|)
      invariant 0 <= i <= |candidates|
      invariant FirstMatch(text, candidates) == FirstMatch(text, candidates, i)
    {
      SameStartIsPrefix(text, candidates[i], 0);
      i := i + 1;
    }
    if i < |candidates| {
      SameStartIsPrefix(text, candidates[i], 0);
    }
  }

  lemma {:induction false} SameStartSymmetric(a: string, b: string, n: nat, k: nat)
    ensures SameStart(a, b, n, k) <==> SameStart(b, a, n, k)
    decreases n - k
  {
    if k < n {
      SameStartSymmetric(a, b, n, k + 1);
    }
  }

  /** The scan over the file table, which passes the arguments of `strncmp` the other way round. */
  method ScanFiles(text: Name, slots: Slots) returns (i: nat)
    ensures i == FirstFile(text, slots)
  {
    i := 0;
    while i < MAX_FILES && !(slots[i].used && SameStart(CString(slots[i].name), text, |text|))
      invariant 0 <= i <= MAX_FILES
      invariant FirstFile(text, slots) == FirstFile(text, slots, i)
    {
      SameStartSymmetric(CString(slots[i].name), text, |text|, 0);
      SameStartIsPrefix(text, CString(slots[i].name), 0);
      i := i + 1;
    }
    if i < MAX_FILES {
      SameStartSymmetric(CString(slots[i].name), text, |text|, 0);
      SameStartIsPrefix(text, CString(slots[i].name), 0);
    }
  }

  /** The copy loop: appends the rest of the candidate while there is room. */
  method Append(buf: array<char>, idx: nat, at: nat, candidate: Name, maxSize: nat) returns (end: nat)
    requires at <= idx < maxSize <= buf.Length && buf[at..idx] <= candidate
    modifies buf
    ensures idx <= end < maxSize && buf[..end] == Extended(old(buf[..idx]), at, candidate, maxSize)
    ensures forall k | end <= k < buf.Length :: buf[k] == old(buf[k])
  {
    ghost var text := buf[..idx];
    ghost var full := text[..at] + candidate;
    assert text == text[..at] + text[at..];
    end := idx;
    var j := idx - at;
    while j < |candidate| && end < maxSize - 1
      invariant end == at + j && idx <= end <= |full| && end < maxSize
      invariant buf[..end] == full[..end]
      invariant forall k | end <= k < buf.Length :: buf[k] == old(buf[k])
    {
      buf[end] := candidate[j];
      assert buf[..end + 1] == buf[..end] + [candidate[j]];
      end := end + 1;
      j := j + 1;
    }
    assert end == |full| ==> full[..end] == full;
  }

  /** `cli_autocomplete` */
  method Autocomplete(buf: array<char>, idx: nat, maxSize: nat, slots: Slots) returns (end: nat)
    requires idx < maxSize <= buf.Length && NUL !in buf[..idx]
    modifies buf
    ensures idx <= end < maxSize && buf[..end] == Complete(old(buf[..idx]), slots, maxSize)
    ensures Completes(old(buf[..idx]), slots, maxSize, buf[..end])
    ensures if idx == 0 then buf[..] == old(buf[..])
            else (end == idx ==> buf[idx] == NUL) && forall k | end <= k < buf.Length && k != idx :: buf[k] == old(buf[k])
  {
    hide FirstMatch, FirstFile, CString, Extended, Commands, PrefixLength, Completes;
    CompleteCompletes(buf[..idx], slots, maxSize);
    end := idx;
    if idx == 0 {
      return;
    }
    var text: Name := buf[..idx];
    buf[idx] := NUL;
    assert buf[..idx] == text;
    var i := Scan(text, Commands());
    if i < |Commands()| {
      assert buf[0..idx] == text == text[0..];
      end := Append(buf, idx, 0, Commands()[i], maxSize);
      return;
    }
    var at := PrefixLength(text);
    PrefixFits(text);
    if at != 0 {
      var k := ScanFiles(text[at..], slots);
      if k < MAX_FILES {
        assert buf[at..idx] == text[at..];
        end := Append(buf, idx, at, CString(slots[k].name), maxSize);
      }
    }
  }
}
