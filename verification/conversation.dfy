/**
 The conversation log: an append-only sequence of turns, of which only the
 last three are ever read back, rendered as `Usuario:` / `Asistente:` lines.
 */
module Conversation {
  import Strings
  import Sequences

  /** One entry of `conversation_history`: `(is_user, msg)`. */
  datatype Turn = Turn(isUser: bool, text: string)

  /** How many of the latest turns the answer prompt shows. */
  const ContextTurns: nat := 3

  function Min(a: int, b: int): int {
    if a < b then a else b
  }

  /** Python's `s[start:]`: a negative start counts from the end and is clamped at 0. */
  function SliceFrom<T>(s: seq<T>, start: int): seq<T> {
    var lo :=
      if start < 0 then (if |s| + start < 0 then 0 else |s| + start)
      else Min(start, |s|);
    s[lo..]
  }

  /** `conversation_history[-3:]`: the latest turns, oldest first. */
  function RecentTurns(history: seq<Turn>): (w: seq<Turn>)
    ensures |w| == Min(ContextTurns, |history|)
    ensures forall i :: 0 <= i < |w| ==> w[i] == history[|history| - |w| + i]
  {
    SliceFrom(history, -(ContextTurns as int))
  }

  function Speaker(t: Turn): string {
    if t.isUser then "Usuario" else "Asistente"
  }

  function RenderTurn(t: Turn): string {
    Speaker(t) + ": " + t.text
  }

  function RenderTurns(ts: seq<Turn>): seq<string> {
    seq(|ts|, i requires 0 <= i < |ts| => RenderTurn(ts[i]))
  }

  /** The "recent conversation" block of the answer prompt. */
  function ContextText(history: seq<Turn>): (r: string)
    ensures |history| == 0 ==> r == ""
    ensures |history| == 1 ==> r == RenderTurn(history[0])
  {
    if |history| == 0 then "" else Strings.JoinLines(RenderTurns(RecentTurns(history)))
  }

  /** Past the first turn, the block ends with a line break and then the newest turn. */
  lemma ContextEndsWithLatest(history: seq<Turn>) returns (earlier: string)
    requires |history| > 1
    ensures ContextText(history) == earlier + "\n" + RenderTurn(history[|history| - 1])
  {
    var lines := RenderTurns(RecentTurns(history));
    var front := lines[..|lines| - 1];
    var last := RenderTurn(history[|history| - 1]);
    assert lines[|lines| - 1] == last;
    Sequences.Snoc(lines);
    Strings.JoinLinesSnoc(front, last);
    earlier := Strings.JoinLines(front);
  }

  /**
   Logging a query and then building the block, as a query does before its
   answer call, puts that query last, as a `Usuario:` line of its own.
   */
  lemma ContextEndsWithQuery(history: seq<Turn>, query: string) returns (earlier: string)
    ensures ContextText(history + [Turn(true, query)]) == earlier + "Usuario: " + query
    ensures earlier == "" || earlier[|earlier| - 1] == '\n'
    ensures earlier == "" <==> |history| == 0
  {
    var turn := Turn(true, query);
    var logged := history + [turn];
    assert logged[|logged| - 1] == turn;
    assert RenderTurn(turn) == "Usuario: " + query;
    if |history| == 0 {
      earlier := "";
    } else {
      var front := ContextEndsWithLatest(logged);
      earlier := front + "\n";
    }
    assert earlier + ("Usuario: " + query) == earlier + "Usuario: " + query;
  }

  /**
   When no shown message holds a line break, the block has exactly one line per
   shown turn: the last min(3, n) turns, oldest first, each with its speaker.
   */
  lemma ContextLines(history: seq<Turn>)
    requires |history| > 0
    requires forall i :: |history| - Min(ContextTurns, |history|) <= i < |history| ==> '\n' !in history[i].text
    ensures var lines := Strings.SplitLines(ContextText(history));
      && |lines| == Min(ContextTurns, |history|)
      && forall i :: 0 <= i < |lines| ==> lines[i] == RenderTurn(history[|history| - |lines| + i])
  {
    var w := RecentTurns(history);
    var lines := RenderTurns(w);
    forall i | 0 <= i < |lines|
      ensures '\n' !in lines[i]
    {
      assert w[i] == history[|history| - |w| + i];
      RenderedTurnIsOneLine(w[i]);
    }
    Strings.SplitJoinLines(lines);
  }

  lemma RenderedTurnIsOneLine(t: Turn)
    requires '\n' !in t.text
    ensures '\n' !in RenderTurn(t)
  {
    assert RenderTurn(t) == Speaker(t) + ": " + t.text;
  }
}
