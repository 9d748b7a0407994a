/** The log as a file of lines. A write can stop anywhere: before the line, inside it, or before its
    newline; whatever is written next then continues the same line. A line is an entry in plain text or,
    when a key is configured, a marker followed by its ciphertext. */
module LogFiles {
  import opened Basics
  import opened Wal

  /** One call that appends an entry, by what has reached the file. Only a complete write is reported as a
      success. */
  datatype Write =
    | Complete(e: WalEntry, encrypted: bool)    // the line and its newline
    | NoNewline(e: WalEntry, encrypted: bool)   // the whole line, but not its newline
    | Fragment                                  // whole characters of a plain line, or of the marker
    | InCharacter                               // the bytes of a plain line up to the middle of a character
    | InCipher                                  // the marker and a part of the ciphertext
    | Nothing

  /** What a line holds, as a reader finds it. Bytes that are no text, and a marker followed by anything but
      one ciphertext, cannot be read; other garbage does not parse and is passed over. */
  datatype Line =
    | Plain(e: WalEntry)
    | Cipher(e: WalEntry)
    | Garbage
    | Unreadable

  /** The lines, and whether the last one lacks its newline. */
  datatype File = File(lines: seq<Line>, open: bool)

  function NewLine(w: Write): Line {
    match w
    case Complete(e, encrypted) => if encrypted then Cipher(e) else Plain(e)
    case NoNewline(e, encrypted) => if encrypted then Cipher(e) else Plain(e)
    case Fragment => Garbage
    case InCharacter => Unreadable
    case InCipher => Unreadable
    case Nothing => Garbage
  }

  function Continued(line: Line, w: Write): Line {
    if line.Unreadable? || line.Cipher? || w.InCharacter? then Unreadable else Garbage
  }

  function Written(f: File, w: Write): File {
    if w.Nothing? then f
    else if f.open && f.lines != [] then
      File(f.lines[..|f.lines| - 1] + [Continued(f.lines[|f.lines| - 1], w)], !w.Complete?)
    else File(f.lines + [NewLine(w)], !w.Complete?)
  }

  /** The entries of the lines that parse, or None when a line cannot be read. */
  function Reading(lines: seq<Line>): Option<seq<WalEntry>> {
    if lines == [] then Some([])
    else match Reading(lines[..|lines| - 1])
         case None => None
         case Some(entries) =>
           match lines[|lines| - 1]
           case Plain(e) => Some(entries + [e])
           case Cipher(e) => Some(entries + [e])
           case Garbage => Some(entries)
           case Unreadable => None
  }

  class LogFile {
    var lines: seq<Line>
    var open: bool

    ghost function Value(): File
      reads this
    {
      File(lines, open)
    }

    constructor ()
      ensures Value() == File([], false)
    {
      lines, open := [], false;
    }

    method Append(w: Write) returns (ok: bool)
      modifies this
      ensures Value() == Written(old(Value()), w) && ok == w.Complete?
    {
      ok := w.Complete?;
      if w.Nothing? {
        return;
      }
      if open && lines != [] {
        var last := lines[|lines| - 1];
        lines := lines[..|lines| - 1] + [Continued(last, w)];
      } else {
        lines := lines + [NewLine(w)];
      }
      open := !ok;
    }

    /** Lines that do not parse are passed over; a line that cannot be read ends the reading with an error. */
    method ReadAll() returns (r: Option<seq<WalEntry>>)
      ensures r == Reading(lines)
    {
      var entries: seq<WalEntry> := [];
      for i := 0 to |lines|
        invariant Reading(lines[..i]) == Some(entries)
      {
        assert lines[..i + 1][..i] == lines[..i];
        match lines[i] {
          case Plain(e) => entries := entries + [e];
          case Cipher(e) => entries := entries + [e];
          case Garbage =>
          case Unreadable =>
            UnreadableEnds(lines, i + 1);
            return None;
        }
      }
      assert lines[..|lines|] == lines;
      r := Some(entries);
    }
  }

  lemma {:induction false} UnreadableEnds(lines: seq<Line>, n: nat)
    requires n <= |lines| && Reading(lines[..n]).None?
    ensures Reading(lines).None?
    decreases |lines|
  {
    if n == |lines| {
      assert lines[..n] == lines;
    } else {
      assert lines[..|lines| - 1][..n] == lines[..n];
      UnreadableEnds(lines[..|lines| - 1], n);
    }
  }

  // ----- Rows of writes -----

  ghost function WrittenAll(writes: seq<Write>): File {
    if writes == [] then File([], false) else Written(WrittenAll(writes[..|writes| - 1]), writes[|writes| - 1])
  }

  /** The write leaves a line that cannot be read: it stops inside a character, or inside the ciphertext at
      the start of a line, or it continues a ciphertext whose newline is missing. */
  ghost predicate Spoils(f: File, w: Write) {
    w.InCharacter? || (w.InCipher? && !f.open) ||
    (!w.Nothing? && f.open && f.lines != [] && f.lines[|f.lines| - 1].Cipher?)
  }

  /** The entry of a last line that is whole but for its newline. */
  ghost function Dangling(f: File): seq<WalEntry> {
    if !f.open || f.lines == [] then []
    else match f.lines[|f.lines| - 1]
         case Plain(e) => [e]
         case Cipher(e) => [e]
         case _ => []
  }

  /** The positions of the writes that were acknowledged and began on a line of their own. */
  ghost function OwnLines(writes: seq<Write>): seq<nat> {
    if writes == [] then []
    else
      var n := |writes| - 1;
      OwnLines(writes[..n]) + if writes[n].Complete? && !WrittenAll(writes[..n]).open then [n] else []
  }

  ghost function EntriesAt(writes: seq<Write>, positions: seq<nat>): seq<WalEntry>
    requires forall i :: 0 <= i < |positions| ==> positions[i] < |writes| && writes[positions[i]].Complete?
  {
    seq(|positions|, i requires 0 <= i < |positions| => writes[positions[i]].e)
  }

  /** They are in rising order, and are exactly the acknowledged writes to a file that did not end inside
      a line. */
  lemma {:induction false} OwnLinesMeaning(writes: seq<Write>)
    ensures var ps := OwnLines(writes);
            && (forall i :: 0 <= i < |ps| ==> ps[i] < |writes| && writes[ps[i]].Complete?)
            && (forall i, j :: 0 <= i < j < |ps| ==> ps[i] < ps[j])
            && (forall p: nat :: p in ps <==> p < |writes| && writes[p].Complete? && !WrittenAll(writes[..p]).open)
  {
    hide WrittenAll;
    if writes != [] {
      var n := |writes| - 1;
      var front := writes[..n];
      OwnLinesMeaning(front);
      assert forall p: nat :: p <= n ==> front[..p] == writes[..p];
      assert forall p: nat :: p < n ==> front[p] == writes[p];
    }
  }

  lemma OneMoreLine(lines: seq<Line>, line: Line)
    ensures Reading(lines + [line]) ==
            match Reading(lines)
            case None => None
            case Some(entries) =>
              if line.Unreadable? then None
              else Some(entries + if line.Plain? || line.Cipher? then [line.e] else [])
  {
    assert (lines + [line])[..|lines|] == lines;
    if Reading(lines).Some? { assert Reading(lines).value + [] == Reading(lines).value; }
  }

  /** The reading of the lines before an open last one. */
  ghost function Settled(f: File): Option<seq<WalEntry>> {
    if f.open && f.lines != [] then Reading(f.lines[..|f.lines| - 1]) else Reading(f.lines)
  }

  lemma WholeIsSettledAndLast(f: File)
    requires f.open ==> f.lines != []
    ensures Reading(f.lines) ==
            if f.open && f.lines[|f.lines| - 1].Unreadable? then None
            else match Settled(f)
                 case None => None
                 case Some(entries) => Some(entries + Dangling(f))
  {
    if f.open {
      OneMoreLine(f.lines[..|f.lines| - 1], f.lines[|f.lines| - 1]);
      assert f.lines == f.lines[..|f.lines| - 1] + [f.lines[|f.lines| - 1]];
    } else if Reading(f.lines).Some? {
      assert Reading(f.lines).value + [] == Reading(f.lines).value;
    }
  }

  /** One write: it makes the file unreadable exactly when it spoils a line, and otherwise settles its own
      entry exactly when it is complete and begins a line; an entry whose newline was missing is lost. */
  lemma WriteReads(f: File, w: Write)
    requires f.open ==> f.lines != []
    requires Reading(f.lines).Some?
    ensures var g := Written(f, w);
            && (g.open ==> g.lines != [])
            && (Reading(g.lines).Some? <==> !Spoils(f, w))
            && (Reading(g.lines).Some? ==>
                  Settled(g) == Some(Settled(f).value + if w.Complete? && !f.open then [w.e] else []))
  {
    var g := Written(f, w);
    WholeIsSettledAndLast(f);
    if w.Nothing? {
      assert Settled(f).value + [] == Settled(f).value;
    } else if f.open {
      var front := f.lines[..|f.lines| - 1];
      OneMoreLine(front, Continued(f.lines[|f.lines| - 1], w));
      assert g.lines[..|g.lines| - 1] == front;
    } else {
      OneMoreLine(f.lines, NewLine(w));
      assert g.lines[..|g.lines| - 1] == f.lines;
      if Reading(f.lines).Some? { assert Reading(f.lines).value + [] == Reading(f.lines).value; }
    }
  }

  lemma OwnLinesUnfold(writes: seq<Write>)
    requires writes != []
    ensures var n := |writes| - 1;
            OwnLines(writes) == OwnLines(writes[..n]) +
              if writes[n].Complete? && !WrittenAll(writes[..n]).open then [n] else []
  {
  }

  lemma EntriesAtFront(writes: seq<Write>)
    requires writes != []
    ensures forall i :: 0 <= i < |OwnLines(writes)| ==>
              OwnLines(writes)[i] < |writes| && writes[OwnLines(writes)[i]].Complete?
    ensures var n := |writes| - 1; var front := writes[..n];
            && (forall i :: 0 <= i < |OwnLines(front)| ==>
                  OwnLines(front)[i] < n && front[OwnLines(front)[i]].Complete?)
            && EntriesAt(writes, OwnLines(writes)) == EntriesAt(front, OwnLines(front)) +
                 if writes[n].Complete? && !WrittenAll(front).open then [writes[n].e] else []
  {
    hide WrittenAll;
    var n := |writes| - 1;
    var front := writes[..n];
    OwnLinesMeaning(writes);
    OwnLinesMeaning(front);
    hide OwnLines;
    OwnLinesUnfold(writes);
    var own := writes[n].Complete? && !WrittenAll(front).open;
    assert forall i :: 0 <= i < n ==> front[i] == writes[i];
    assert |EntriesAt(writes, OwnLines(writes))| == |OwnLines(front)| + if own then 1 else 0;
  }

  /** For any row of writes: reading succeeds exactly when no write spoiled a line, and then answers with the
      acknowledged entries that began on a line of their own, in order, followed by a last entry whose
      newline is missing. So an acknowledged entry is read back exactly when no write of the row spoiled a
      line and the file did not end inside a line when it was written. */
  lemma {:induction false} ReadingMeaning(writes: seq<Write>)
    ensures var f := WrittenAll(writes); var ps := OwnLines(writes);
            && (f.open ==> f.lines != [])
            && (Reading(f.lines).Some? <==>
                  forall i :: 0 <= i < |writes| ==> !Spoils(WrittenAll(writes[..i]), writes[i]))
            && (forall i :: 0 <= i < |ps| ==> ps[i] < |writes| && writes[ps[i]].Complete?)
            && (Reading(f.lines).Some? ==> Reading(f.lines) == Some(EntriesAt(writes, ps) + Dangling(f)))
            && (Reading(f.lines).Some? ==> Settled(f) == Some(EntriesAt(writes, ps)))
  {
    hide Spoils, Written, Reading, Dangling, Settled, OwnLines;
    OwnLinesMeaning(writes);
    var f := WrittenAll(writes);
    if writes == [] {
      EmptyReading();
      assert EntriesAt([], []) + [] == [];
    } else {
      var n := |writes| - 1;
      var front, w := writes[..n], writes[n];
      var before := WrittenAll(front);
      ReadingMeaning(front);
      assert forall i :: 0 <= i < n ==> front[..i] == writes[..i] && front[i] == writes[i];
      EntriesAtFront(writes);
      if Reading(before.lines).Some? {
        WriteReads(before, w);
      } else {
        StaysUnreadable(before, w);
      }
      WholeIsSettledAndLast(f);
    }
  }

  /** The acknowledged write at position `p` is read back, in its place among the others. */
  ghost predicate ReadBack(writes: seq<Write>, p: nat)
    requires p < |writes| && writes[p].Complete?
  {
    var ps, reading := OwnLines(writes), Reading(WrittenAll(writes).lines);
    reading.Some? && exists i :: 0 <= i < |ps| && ps[i] == p && i < |reading.value| && reading.value[i] == writes[p].e
  }

  /** An acknowledged entry is read back exactly when no write of the whole row spoils a line and the file
      did not end inside a line when it was written. */
  lemma ReadBackExactlyWhen(writes: seq<Write>, p: nat)
    requires p < |writes| && writes[p].Complete?
    ensures ReadBack(writes, p) <==>
            (forall i :: 0 <= i < |writes| ==> !Spoils(WrittenAll(writes[..i]), writes[i])) &&
            !WrittenAll(writes[..p]).open
  {
    hide Spoils, WrittenAll, Reading, Dangling, Settled, OwnLines;
    OwnLinesMeaning(writes);
    ReadingMeaning(writes);
    var ps, reading := OwnLines(writes), Reading(WrittenAll(writes).lines);
    if reading.Some? && p in ps {
      var i :| 0 <= i < |ps| && ps[i] == p;
      assert reading.value[i] == EntriesAt(writes, ps)[i] == writes[p].e;
    }
  }

  lemma EmptyReading()
    ensures Reading([]) == Some([]) && Dangling(File([], false)) == [] && Settled(File([], false)) == Some([])
    ensures OwnLines([]) == []
  {
  }

  /** What could not be read stays so. */
  lemma StaysUnreadable(f: File, w: Write)
    requires (f.open ==> f.lines != []) && Reading(f.lines).None?
    ensures Reading(Written(f, w).lines).None? && (Written(f, w).open ==> Written(f, w).lines != [])
  {
    if !w.Nothing? {
      if f.open {
        var front, last := f.lines[..|f.lines| - 1], f.lines[|f.lines| - 1];
        OneMoreLine(front, last);
        OneMoreLine(front, Continued(last, w));
        assert f.lines == front + [last];
      } else {
        OneMoreLine(f.lines, NewLine(w));
      }
    }
  }

  /** Without encryption only a write that stops inside a character makes the log unreadable. */
  lemma PlainLogIsReadableExactlyWhen(writes: seq<Write>)
    requires forall i :: 0 <= i < |writes| ==>
               !writes[i].InCipher? && (writes[i].Complete? || writes[i].NoNewline? ==> !writes[i].encrypted)
    ensures Reading(WrittenAll(writes).lines).Some? <==> forall i :: 0 <= i < |writes| ==> !writes[i].InCharacter?
  {
    hide WrittenAll, Reading;
    ReadingMeaning(writes);
    forall i | 0 <= i < |writes|
      ensures Spoils(WrittenAll(writes[..i]), writes[i]) <==> writes[i].InCharacter?
    {
      NoCipher(writes[..i]);
    }
  }

  lemma {:induction false} NoCipher(writes: seq<Write>)
    requires forall i :: 0 <= i < |writes| ==>
               !writes[i].InCipher? && (writes[i].Complete? || writes[i].NoNewline? ==> !writes[i].encrypted)
    ensures forall i :: 0 <= i < |WrittenAll(writes).lines| ==> !WrittenAll(writes).lines[i].Cipher?
  {
    if writes != [] { NoCipher(writes[..|writes| - 1]); }
  }

  /** When no write stops inside its line, what is read is what was acknowledged. */
  lemma {:induction false} CleanWritesAreRead(writes: seq<Write>)
    requires forall i :: 0 <= i < |writes| ==> writes[i].Complete? || writes[i].Nothing?
    ensures Reading(WrittenAll(writes).lines) == Some(Acknowledged(writes)) && !WrittenAll(writes).open
  {
    hide Reading;
    if writes == [] {
      EmptyReading();
    } else {
      var front, last := writes[..|writes| - 1], writes[|writes| - 1];
      CleanWritesAreRead(front);
      if last.Complete? {
        OneMoreLine(WrittenAll(front).lines, NewLine(last));
      } else {
        assert Acknowledged(front) + [] == Acknowledged(front);
      }
    }
  }

  ghost function Acknowledged(writes: seq<Write>): seq<WalEntry> {
    if writes == [] then []
    else
      var last := writes[|writes| - 1];
      Acknowledged(writes[..|writes| - 1]) + if last.Complete? then [last.e] else []
  }
}
