/**
 * `generateEmailHtml`: a fixed header, then one block per shift in order;
 * each block lists the shift's notes as `<li>` items, or a single
 * placeholder item when it has none. How a shift date is written
 * (`toLocaleDateString` and friends) is a parameter, `dateText`.
 */
module EmailBody {
  import opened Shifts

  const Header := "<h2>Upcoming Shifts </h2> <hr> "

  /** A list item around `text`. */
  function ListItem(text: string): string {
    "<li>" + text + "</li>"
  }

  /** `<li> ${note} </li>` */
  function NoteItem(note: string): string {
    ListItem(" " + note + " ")
  }

  /** `<li>No additional notes</li>` */
  function NoNotesItem(): string {
    ListItem("No additional notes")
  }

  /** The text of a block up to and including the opening `<ul>`. */
  function BlockHead(shift: Shift, formattedDate: string): string {
    "\n            <h3>Shift Date: " + formattedDate
    + "</h3>\n            <p><strong>Location:</strong> " + shift.location
    + "</p>\n            <p><strong>Ward:</strong> " + shift.ward
    + "</p>\n            <p><strong>Start Time:</strong> " + shift.startTime
    + "</p>\n            <p><strong>End Time:</strong> " + shift.endTime
    + "</p>\n            <p><strong>Notes:</strong></p>\n            <ul>\n        "
  }

  function BlockTail(website: string): string {
    " </ul> <hr> <a href='" + website + "'> Book Now </a> "
  }

  /** The texts of the elements of `xs`, one after the other, in order. */
  function Concat<T>(xs: seq<T>, text: T -> string): string {
    if xs == [] then "" else Concat(xs[..|xs| - 1], text) + text(xs[|xs| - 1])
  }

  function NotesList(notes: seq<string>): string {
    if |notes| > 0 then Concat(notes, NoteItem) else NoNotesItem()
  }

  function Block(shift: Shift, dateText: string -> string, website: string): string {
    BlockHead(shift, dateText(shift.shiftDate)) + NotesList(shift.notes) + BlockTail(website)
  }

  /** Block as a function of the shift alone. */
  function BlockText(dateText: string -> string, website: string): Shift -> string {
    s => Block(s, dateText, website)
  }

  /** The e-mail body for a list of shifts. */
  function EmailHtml(shifts: seq<Shift>, dateText: string -> string, website: string): string {
    Header + Concat(shifts, BlockText(dateText, website))
  }

  /** `generateEmailHtml` as a function of the shift list alone. */
  function Renderer(dateText: string -> string, website: string): seq<Shift> -> string {
    shifts => EmailHtml(shifts, dateText, website)
  }

  /** The body built by appending, as `generateEmailHtml` does. */
  method GenerateEmailHtml(shifts: seq<Shift>, dateText: string -> string, website: string)
    returns (emailBody: string)
    ensures emailBody == EmailHtml(shifts, dateText, website)
    ensures Header <= emailBody
  {
    ghost var block := BlockText(dateText, website);
    emailBody := Header;
    for i := 0 to |shifts|
      invariant emailBody == Header + Concat(shifts[..i], block)
    {
      ConcatSnoc(shifts, i, block);
      AppendAssoc(Header, Concat(shifts[..i], block), block(shifts[i]));
      emailBody := AppendBlock(emailBody, shifts[i], dateText, website);
    }
    assert shifts[..|shifts|] == shifts;
  }

  /** The body of the `shifts.forEach` callback: appends one shift's block. */
  method AppendBlock(emailBody: string, shift: Shift, dateText: string -> string, website: string)
    returns (newBody: string)
    ensures newBody == emailBody + Block(shift, dateText, website)
  {
    var head := BlockHead(shift, dateText(shift.shiftDate));
    newBody := emailBody + head;
    if |shift.notes| > 0 {
      for j := 0 to |shift.notes|
        invariant newBody == emailBody + head + Concat(shift.notes[..j], NoteItem)
      {
        ConcatSnoc(shift.notes, j, NoteItem);
        AppendAssoc(emailBody + head, Concat(shift.notes[..j], NoteItem), NoteItem(shift.notes[j]));
        newBody := newBody + NoteItem(shift.notes[j]);
      }
      assert shift.notes[..|shift.notes|] == shift.notes;
    } else {
      newBody := newBody + NoNotesItem();
    }
    ghost var notes := NotesList(shift.notes);
    assert newBody == emailBody + head + notes;
    newBody := newBody + BlockTail(website);
    AppendAssoc(emailBody, head, notes);
    AppendAssoc(emailBody, head + notes, BlockTail(website));
  }

  /** A proof step for the solver (regrouping appends), not a property of the e-mail. */
  lemma AppendAssoc(a: string, b: string, c: string)
    ensures (a + b) + c == a + (b + c)
  {
  }

  lemma ConcatSnoc<T>(xs: seq<T>, i: nat, text: T -> string)
    requires i < |xs|
    ensures Concat(xs[..i + 1], text) == Concat(xs[..i], text) + text(xs[i])
  {
    assert xs[..i + 1][..i] == xs[..i];
  }

  // ---- order ----

  lemma {:induction false} ConcatAppend<T>(a: seq<T>, b: seq<T>, text: T -> string)
    ensures Concat(a + b, text) == Concat(a, text) + Concat(b, text)
  {
    if b == [] {
      assert a + b == a;
    } else {
      var init := b[..|b| - 1];
      assert (a + b)[..|a + b| - 1] == a + init;
      ConcatAppend(a, init, text);
    }
  }

  /** Around its k-th element, the texts split into those before it, its own and those after it. */
  lemma ConcatSplitAt<T>(xs: seq<T>, k: nat, text: T -> string)
    requires k < |xs|
    ensures Concat(xs, text) == Concat(xs[..k], text) + text(xs[k]) + Concat(xs[k + 1..], text)
  {
    assert xs == xs[..k + 1] + xs[k + 1..];
    ConcatAppend(xs[..k + 1], xs[k + 1..], text);
    ConcatSnoc(xs, k, text);
  }

  /** The blocks appear in shift order: the body is the body for the shifts
      before the k-th, then the k-th shift's block, then the blocks after it. */
  lemma BlockOrder(shifts: seq<Shift>, k: nat, dateText: string -> string, website: string)
    requires k < |shifts|
    ensures EmailHtml(shifts, dateText, website)
         == EmailHtml(shifts[..k], dateText, website) + Block(shifts[k], dateText, website)
            + Concat(shifts[k + 1..], BlockText(dateText, website))
  {
    var f := BlockText(dateText, website);
    ConcatSplitAt(shifts, k, f);
    var a, b, c := Concat(shifts[..k], f), f(shifts[k]), Concat(shifts[k + 1..], f);
    AppendAssoc(Header, a + b, c);
    AppendAssoc(Header, a, b);
  }

  /** The notes appear in order: the k-th note's item comes after the items of
      the notes before it and before those of the notes after it. */
  lemma NoteOrder(notes: seq<string>, k: nat)
    requires k < |notes|
    ensures NotesList(notes)
         == Concat(notes[..k], NoteItem) + NoteItem(notes[k]) + Concat(notes[k + 1..], NoteItem)
  {
    ConcatSplitAt(notes, k, NoteItem);
  }

  lemma {:induction false} ConcatLength<T>(xs: seq<T>, text: T -> string)
    requires forall x :: x in xs ==> |text(x)| > 0
    ensures |Concat(xs, text)| >= |xs|
  {
    if xs != [] {
      ConcatLength(xs[..|xs| - 1], text);
    }
  }

  /** The body is the bare header exactly when there are no shifts. */
  lemma HeaderOnlyIffNoShifts(shifts: seq<Shift>, dateText: string -> string, website: string)
    ensures EmailHtml(shifts, dateText, website) == Header <==> shifts == []
  {
    var f := BlockText(dateText, website);
    assert forall x :: x in shifts ==> |f(x)| > 0 by {
      forall x | x in shifts ensures |f(x)| > 0 {
        assert |BlockTail(website)| > 0;
      }
    }
    ConcatLength(shifts, f);
    if EmailHtml(shifts, dateText, website) == Header {
      assert |Concat(shifts, f)| == 0;
    }
  }

  // ---- counting list items ----

  /** The number of places where `<li>` starts in `s`. */
  function LiCount(s: string): nat {
    if |s| < 4 then 0
    else (if s[..4] == "<li>" then 1 else 0) + LiCount(s[1..])
  }

  /** No `<li>` can start in the last three characters of `s` and run on past its end. */
  predicate SafeEnd(s: string) {
    forall k :: 0 <= k < |s| && |s| - 3 <= k ==> s[k] != '<'
  }

  lemma {:induction false} LiCountNoTag(s: string)
    requires '<' !in s
    ensures LiCount(s) == 0
  {
    if |s| >= 4 {
      assert s[..4][0] == s[0];
      LiCountNoTag(s[1..]);
    }
  }

  lemma {:induction false} LiCountConcat(a: string, b: string)
    requires SafeEnd(a)
    ensures LiCount(a + b) == LiCount(a) + LiCount(b)
  {
    if a == [] {
      assert a + b == b;
    } else {
      assert (a + b)[1..] == a[1..] + b;
      LiCountConcat(a[1..], b);
      if |a| >= 4 {
        assert (a + b)[..4] == a[..4];
      } else if |a + b| >= 4 {
        assert (a + b)[..4][0] == a[0];
      }
    }
  }

  /** An item whose text has no '<' holds exactly one `<li>`, and none can straddle its end. */
  lemma ListItemCount(text: string)
    requires '<' !in text
    ensures LiCount(ListItem(text)) == 1
    ensures SafeEnd(ListItem(text))
  {
    var s := ListItem(text);
    var open, close := "<li>", "</li>";
    var inner := open[1..] + text;
    assert s == open + text + close;
    assert s[..4] == open;
    assert s[1..] == inner + close;
    assert '<' !in inner;
    LiCountConcat(inner, close);
    LiCountNoTag(inner);
    assert close[..4][1] != open[1];
    assert close[1..] == "/li>";
    LiCountNoTag(close[1..]);
    assert forall k :: |s| - 3 <= k < |s| ==> s[k] == close[k - |open + text|];
  }

  /** Joining at a space adds up the counts: `<li>` holds no space, so none straddles the join. */
  lemma {:induction false} LiCountConcatSpace(a: string, b: string)
    requires |b| > 0 && b[0] == ' '
    ensures LiCount(a + b) == LiCount(a) + LiCount(b)
  {
    if a == [] {
      assert a + b == b;
    } else {
      assert (a + b)[1..] == a[1..] + b;
      LiCountConcatSpace(a[1..], b);
      if |a| >= 4 {
        assert (a + b)[..4] == a[..4];
      } else if |a + b| >= 4 {
        assert (a + b)[..4][|a|] == ' ';
      }
    }
  }

  /** A note without `<li>` gives an item with exactly one `<li>`, and none can straddle its end. */
  lemma NoteItemCount(note: string)
    requires LiCount(note) == 0
    ensures LiCount(NoteItem(note)) == 1
    ensures SafeEnd(NoteItem(note))
  {
    var s := NoteItem(note);
    var open, inner, tail := "<li>", " " + note, " </li>";
    assert s == open + inner + tail;
    assert s[..4] == open;
    assert s[1..] == open[1..] + (inner + tail);
    LiCountNoTag(open[1..]);
    LiCountConcat(open[1..], inner + tail);
    LiCountConcatSpace(inner, tail);
    if |inner| >= 4 {
      assert inner[..4][0] == ' ';
      assert inner[1..] == note;
    } else {
      assert |note| < 4;
    }
    assert tail[..4][1] != open[1];
    assert tail[1..][..4][1] != open[1];
    assert tail[1..][1..] == "/li>";
    LiCountNoTag(tail[1..][1..]);
    assert forall k :: |s| - 3 <= k < |s| ==> s[k] == tail[k - |open + inner|];
  }

  lemma {:induction false} NoteItemsCount(notes: seq<string>)
    requires forall k :: 0 <= k < |notes| ==> LiCount(notes[k]) == 0
    ensures LiCount(Concat(notes, NoteItem)) == |notes|
    ensures SafeEnd(Concat(notes, NoteItem))
  {
    if notes != [] {
      var init, last := notes[..|notes| - 1], notes[|notes| - 1];
      NoteItemsCount(init);
      NoteItemCount(last);
      var a, b := Concat(init, NoteItem), NoteItem(last);
      LiCountConcat(a, b);
      assert forall k :: 0 <= k < |a + b| && |a + b| - 3 <= k ==> (a + b)[k] == b[k - |a|];
    }
  }

  /**
   * When no note contains `<li>`, the notes list of a block holds exactly one
   * `<li>` per note, or exactly one (the placeholder) when there are none.
   */
  lemma NotesListCount(notes: seq<string>)
    requires forall k :: 0 <= k < |notes| ==> LiCount(notes[k]) == 0
    ensures LiCount(NotesList(notes)) == if notes == [] then 1 else |notes|
  {
    if notes == [] {
      ListItemCount("No additional notes");
    } else {
      NoteItemsCount(notes);
    }
  }
}
