/**
 * The status message kept up to date by `update_status_message`. Each pass of
 * its loop formats a two-line text from whether the PC answers a ping and
 * whether the TCP link is connected, edits the registered message only when
 * that text differs from `previous_text`, and moves `previous_text` on only
 * when the edit went through. The ping and the edit are outcomes given as
 * inputs; the three-second pause between passes is not modelled.
 */
module Status {

  const StatusPrefix: string := "Статус ПК: "
  const PcOnText: string := "ПК включен"
  const PcOffText: string := "ПК выключен"
  const LinkUpText: string := "Сервер: подключен"
  const LinkDownText: string := "Сервер: нет соединения"

  function PcStatus(hostUp: bool): (r: string)
    ensures '\n' !in r && (r == PcOnText <==> hostUp)
  {
    if hostUp then PcOnText else PcOffText
  }

  function LinkStatus(connected: bool): (r: string)
    ensures '\n' !in r && (r == LinkUpText <==> connected)
  {
    if connected then LinkUpText else LinkDownText
  }

  /** `f"Статус ПК: {pc_status}\n{tcp_status}"`. */
  function StatusText(hostUp: bool, connected: bool): (t: string)
    ensures StatusPrefix + PcStatus(hostUp) + "\n" <= t
  {
    StatusPrefix + PcStatus(hostUp) + "\n" + LinkStatus(connected)
  }

  /** The four texts a pass can format. */
  function AllStatusTexts(): set<string> {
    {StatusText(false, false), StatusText(false, true), StatusText(true, false), StatusText(true, true)}
  }

  /** One `edit_message_text` call: which message, and the text put in it. */
  datatype EditRequest = EditRequest(chat: int, message: int, text: string)

  /** What one pass of the loop sees: the message ids it reads, the probe and link state, the edit outcome. */
  datatype TickInput = TickInput(chat: int, message: int, hostUp: bool, connected: bool, editOk: bool)

  /** `previous_text` after one pass that formatted `text`. */
  function NextPrevious(previous: string, text: string, editOk: bool): (next: string)
    ensures next == text || next == previous
    ensures next != previous <==> text != previous && editOk
  {
    if text != previous && editOk then text else previous
  }

  /** The edit calls one pass makes: none when the text is unchanged, one otherwise. */
  function TickEdits(previous: string, t: TickInput): (edits: seq<EditRequest>)
    ensures |edits| <= 1
    ensures |edits| == 1 <==> StatusText(t.hostUp, t.connected) != previous
    ensures forall e :: e in edits ==> e == EditRequest(t.chat, t.message, StatusText(t.hostUp, t.connected))
  {
    var text := StatusText(t.hostUp, t.connected);
    if text != previous then [EditRequest(t.chat, t.message, text)] else []
  }

  /** `previous_text` after a run of passes. */
  function RunPrevious(previous: string, ticks: seq<TickInput>): (r: string)
    ensures r == previous || r in AllStatusTexts()
    decreases |ticks|
  {
    if ticks == [] then previous
    else RunPrevious(NextPrevious(previous, StatusText(ticks[0].hostUp, ticks[0].connected), ticks[0].editOk), ticks[1..])
  }

  /** The edit calls a run of passes makes, in order. */
  function RunEdits(previous: string, ticks: seq<TickInput>): (r: seq<EditRequest>)
    ensures |r| <= |ticks|
    decreases |ticks|
  {
    if ticks == [] then []
    else
      var next := NextPrevious(previous, StatusText(ticks[0].hostUp, ticks[0].connected), ticks[0].editOk);
      TickEdits(previous, ticks[0]) + RunEdits(next, ticks[1..])
  }

  /** The text of the last edit that went through in a run, or `previous` when none did. */
  function LastPushed(previous: string, ticks: seq<TickInput>): string
    decreases |ticks|
  {
    if ticks == [] then previous
    else
      var t := ticks[|ticks| - 1];
      var text := StatusText(t.hostUp, t.connected);
      if t.editOk then text else LastPushed(previous, ticks[..|ticks| - 1])
  }

  /** One pass taken off the front of a run. */
  lemma UnfoldRun(previous: string, ticks: seq<TickInput>)
    requires ticks != []
    ensures var next := NextPrevious(previous, StatusText(ticks[0].hostUp, ticks[0].connected), ticks[0].editOk);
            RunPrevious(previous, ticks) == RunPrevious(next, ticks[1..])
            && RunEdits(previous, ticks) == TickEdits(previous, ticks[0]) + RunEdits(next, ticks[1..])
  {
  }

  /** Taking one more pass of a run keeps the rest of the run accounting for the same totals. */
  lemma RunStep(ticks: seq<TickInput>, i: nat, previous: string, edits: seq<EditRequest>,
                previous': string, edits': seq<EditRequest>)
    requires i < |ticks|
    requires previous' == NextPrevious(previous, StatusText(ticks[i].hostUp, ticks[i].connected), ticks[i].editOk)
    requires edits' == edits + TickEdits(previous, ticks[i])
    ensures RunPrevious(previous, ticks[i..]) == RunPrevious(previous', ticks[i + 1..])
    ensures edits + RunEdits(previous, ticks[i..]) == edits' + RunEdits(previous', ticks[i + 1..])
  {
    var t, rest := ticks[i], ticks[i..];
    assert rest[0] == t && rest[1..] == ticks[i + 1..];
    UnfoldRun(previous, rest);
    var a, b := TickEdits(previous, t), RunEdits(previous', ticks[i + 1..]);
    assert RunEdits(previous, rest) == a + b;
    AppendAssoc(edits, a, b);
  }

  lemma AppendAssoc<T>(x: seq<T>, y: seq<T>, z: seq<T>)
    ensures x + (y + z) == (x + y) + z
  {
  }

  /** The state of one running `update_status_message` task. */
  class StatusUpdater {
    var previousText: string
    /** Every `edit_message_text` call made so far. */
    ghost var edits: seq<EditRequest>

    /** A freshly started task: `previous_text = ""` and nothing edited yet. */
    constructor ()
      ensures previousText == "" && edits == []
    {
      previousText := "";
      edits := [];
    }

    /** One pass of the loop. `attempted` says whether the message was edited. */
    method Tick(t: TickInput) returns (attempted: bool)
      modifies this
      ensures attempted <==> StatusText(t.hostUp, t.connected) != old(previousText)
      ensures edits == old(edits) + TickEdits(old(previousText), t)
      ensures previousText == NextPrevious(old(previousText), StatusText(t.hostUp, t.connected), t.editOk)
    {
      var pc := PcStatus(t.hostUp);
      var link := LinkStatus(t.connected);
      var text := StatusPrefix + pc + "\n" + link;
      attempted := text != previousText;
      if attempted {
        edits := edits + [EditRequest(t.chat, t.message, text)];
        if t.editOk {
          previousText := text;
        }
      }
    }

    /** A run of passes of the loop, one per input. */
    method Run(ticks: seq<TickInput>)
      modifies this
      ensures previousText == RunPrevious(old(previousText), ticks)
      ensures edits == old(edits) + RunEdits(old(previousText), ticks)
    {
      var i := 0;
      while i < |ticks|
        invariant 0 <= i <= |ticks|
        invariant RunPrevious(old(previousText), ticks) == RunPrevious(previousText, ticks[i..])
        invariant old(edits) + RunEdits(old(previousText), ticks) == edits + RunEdits(previousText, ticks[i..])
      {
        ghost var previous0, edits0 := previousText, edits;
        var _ := Tick(ticks[i]);
        RunStep(ticks, i, previous0, edits0, previousText, edits);
        i := i + 1;
      }
    }
  }

  // ---------------------------------------------------------------------------
  // Properties of the text and of the loop

  /** The four (host, link) pairs give four different texts: the text determines the pair. */
  lemma StatusTextDistinct(h1: bool, c1: bool, h2: bool, c2: bool)
    ensures StatusText(h1, c1) == StatusText(h2, c2) <==> h1 == h2 && c1 == c2
  {
    var t1, t2 := StatusText(h1, c1), StatusText(h2, c2);
    if h1 != h2 {
      assert t1[15] != t2[15];
    } else if c1 != c2 {
      var n := |StatusPrefix + PcStatus(h1) + "\n"|;
      assert t1[n + 8] != t2[n + 8];
    }
  }

  lemma NoLineBreakInParts(hostUp: bool, connected: bool)
    ensures '\n' !in StatusPrefix + PcStatus(hostUp) && '\n' !in LinkStatus(connected)
  {
    assert '\n' !in StatusPrefix;
    assert '\n' !in PcStatus(hostUp);
    assert '\n' !in LinkStatus(connected);
  }

  /** The text has two lines: exactly one line break, between the PC line and the link line. */
  lemma StatusTextTwoLines(hostUp: bool, connected: bool)
    ensures var t := StatusText(hostUp, connected);
            var n := |StatusPrefix + PcStatus(hostUp)|;
            n < |t| && t[n] == '\n'
            && t[..n] == StatusPrefix + PcStatus(hostUp) && t[n + 1..] == LinkStatus(connected)
            && forall i :: 0 <= i < |t| && i != n ==> t[i] != '\n'
  {
    var first, second := StatusPrefix + PcStatus(hostUp), LinkStatus(connected);
    NoLineBreakInParts(hostUp, connected);
    var t := first + "\n" + second;
    assert t == StatusText(hostUp, connected);
    var n := |first|;
    assert t[..n] == first && t[n + 1..] == second;
    forall i | 0 <= i < |t| && i != n ensures t[i] != '\n' {
      if i < n {
        assert t[i] == first[i];
      } else {
        assert t[i] == second[i - n - 1];
      }
    }
  }

  /**
   * `previous_text` is always the text of the last edit that went through, or
   * its starting value when none did.
   */
  lemma {:induction false} RunPreviousIsLastPushed(previous: string, ticks: seq<TickInput>)
    ensures RunPrevious(previous, ticks) == LastPushed(previous, ticks)
    decreases |ticks|
  {
    if ticks != [] {
      var n := |ticks| - 1;
      var init := ticks[..n];
      RunPreviousSnoc(previous, init, ticks[n]);
      assert init + [ticks[n]] == ticks;
      RunPreviousIsLastPushed(previous, init);
    }
  }

  /** Running one more pass after a run. */
  lemma {:induction false} RunPreviousSnoc(previous: string, ticks: seq<TickInput>, t: TickInput)
    ensures RunPrevious(previous, ticks + [t])
            == NextPrevious(RunPrevious(previous, ticks), StatusText(t.hostUp, t.connected), t.editOk)
    decreases |ticks|
  {
    if ticks == [] {
      assert [] + [t] == [t];
    } else {
      assert (ticks + [t])[1..] == ticks[1..] + [t];
      RunPreviousSnoc(NextPrevious(previous, StatusText(ticks[0].hostUp, ticks[0].connected), ticks[0].editOk),
                      ticks[1..], t);
    }
  }

  /**
   * A snapshot whose edit went through is not pushed again: a second pass
   * with the same host and link state makes no edit.
   */
  lemma NoRepeatAfterSuccess(previous: string, t1: TickInput, t2: TickInput)
    requires t1.hostUp == t2.hostUp && t1.connected == t2.connected && t1.editOk
    ensures RunEdits(previous, [t1, t2]) == TickEdits(previous, t1)
  {
    var text := StatusText(t1.hostUp, t1.connected);
    var next := NextPrevious(previous, text, t1.editOk);
    assert next == text;
    assert TickEdits(next, t2) == [];
    assert [t1, t2][1..] == [t2];
    assert RunEdits(next, [t2]) == TickEdits(next, t2) + RunEdits(next, []);
  }

  /**
   * A failed edit leaves `previous_text` alone, so the next pass with the same
   * host and link state edits again, with the same text.
   */
  lemma FailedEditRetried(previous: string, t1: TickInput, t2: TickInput)
    requires t1.hostUp == t2.hostUp && t1.connected == t2.connected && !t1.editOk
    requires StatusText(t1.hostUp, t1.connected) != previous
    ensures RunPrevious(previous, [t1]) == previous
    ensures var text := StatusText(t1.hostUp, t1.connected);
            RunEdits(previous, [t1, t2])
            == [EditRequest(t1.chat, t1.message, text), EditRequest(t2.chat, t2.message, text)]
  {
    var text := StatusText(t1.hostUp, t1.connected);
    assert NextPrevious(previous, text, false) == previous;
    assert [t1, t2][1..] == [t2];
    assert [t1][1..] == [];
    assert RunEdits(previous, [t2]) == TickEdits(previous, t2) + RunEdits(previous, []);
  }

  /** After a run from the task's start, `previous_text` is "" or one of the four status texts. */
  lemma {:induction false} RunPreviousIsStatus(ticks: seq<TickInput>)
    ensures RunPrevious("", ticks) == ""
            || exists h: bool, c: bool :: RunPrevious("", ticks) == StatusText(h, c)
  {
    RunPreviousIsLastPushed("", ticks);
    LastPushedIsStatus(ticks);
  }

  lemma {:induction false} LastPushedIsStatus(ticks: seq<TickInput>)
    ensures LastPushed("", ticks) == ""
            || exists h: bool, c: bool :: LastPushed("", ticks) == StatusText(h, c)
    decreases |ticks|
  {
    if ticks != [] {
      var t := ticks[|ticks| - 1];
      if !t.editOk {
        LastPushedIsStatus(ticks[..|ticks| - 1]);
      } else {
        assert LastPushed("", ticks) == StatusText(t.hostUp, t.connected);
      }
    }
  }
}
