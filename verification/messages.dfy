/** The message log shown in the panel: a bounded first-in first-out buffer
    of coloured lines. */
module MessageLog {
  import opened Common

  /** One line of the log. */
  datatype Entry = Entry(text: string, color: Color)

  type Log = seq<Entry>

  /** The last `n` elements of `s` (all of `s` when it is shorter). */
  function LastN<T>(s: seq<T>, n: nat): (r: seq<T>)
    ensures |r| == Min(|s|, n)
    ensures forall k | 0 <= k < |r| :: r[k] == s[|s| - |r| + k]
  {
    if |s| <= n then s else s[|s| - n..]
  }

  /** `message(messages, text, color)`: when the log already holds
      MSG_HEIGHT lines the oldest one is dropped before the new line is
      appended. A log that is somehow longer than that is never trimmed. */
  function Message(log: Log, text: string, color: Color): (r: Log)
    ensures |r| > 0 && r[|r| - 1] == Entry(text, color)
    // a log within capacity becomes the newest MSG_HEIGHT lines of log + [entry]
    ensures |log| <= MSG_HEIGHT ==> r == LastN(log + [Entry(text, color)], MSG_HEIGHT)
    ensures |log| <= MSG_HEIGHT ==> |r| <= MSG_HEIGHT
    // an overfull log only grows
    ensures |log| > MSG_HEIGHT ==> r == log + [Entry(text, color)]
  {
    var kept := if |log| == MSG_HEIGHT then log[1..] else log;
    kept + [Entry(text, color)]
  }

  /** Logging each entry of `es` in turn. */
  function LogAll(log: Log, es: seq<Entry>): (r: Log)
    decreases |es|
  {
    if |es| == 0 then log
    else LogAll(Message(log, es[0].text, es[0].color), es[1..])
  }

  /** Trimming to the last n and then appending, then trimming again, is the
      same as appending and trimming once. */
  lemma LastNOfLastN<T>(s: seq<T>, t: seq<T>, n: nat)
    ensures LastN(LastN(s, n) + t, n) == LastN(s + t, n)
  {
    var a, b := LastN(LastN(s, n) + t, n), LastN(s + t, n);
    assert |a| == |b|;
    forall k | 0 <= k < |a|
      ensures a[k] == b[k]
    {
      var u := LastN(s, n) + t;
      if |u| - |a| + k >= |LastN(s, n)| {
        assert a[k] == t[|u| - |a| + k - |LastN(s, n)|];
      }
    }
  }

  lemma SplitFirst<T>(s: seq<T>, t: seq<T>)
    requires |t| > 0
    ensures s + [t[0]] + t[1..] == s + t
  {
  }

  /** One step of `LogAll` on a log within capacity. */
  lemma LogAllStep(log: Log, es: seq<Entry>)
    requires |log| <= MSG_HEIGHT && |es| > 0
    ensures LogAll(log, es) == LogAll(LastN(log + [es[0]], MSG_HEIGHT), es[1..])
    ensures |LastN(log + [es[0]], MSG_HEIGHT)| <= MSG_HEIGHT
  {
    var e := es[0];
    assert [Entry(e.text, e.color)] == [e];
  }

  /** However many lines are logged, a log that starts within capacity holds
      exactly the newest MSG_HEIGHT lines of everything logged, oldest first. */
  lemma {:induction false} LogKeepsNewestLines(log: Log, es: seq<Entry>)
    requires |log| <= MSG_HEIGHT
    ensures LogAll(log, es) == LastN(log + es, MSG_HEIGHT)
    ensures |LogAll(log, es)| <= MSG_HEIGHT
    decreases |es|
  {
    if |es| == 0 {
      assert log + es == log;
    } else {
      var head, tail := log + [es[0]], es[1..];
      var next := LastN(head, MSG_HEIGHT);
      LogAllStep(log, es);
      LogKeepsNewestLines(next, tail);
      LastNOfLastN(head, tail, MSG_HEIGHT);
      SplitFirst(log, es);
    }
  }
}
