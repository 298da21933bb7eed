/**
 * The statement loop of `loadInitFile`, with the file read, the database
 * and the logger abstracted away: statements run in order, and the first
 * one the database rejects ends the run with an error naming it.
 */
module InitFile {
  import opened GoStrings
  import opened Display

  /** How a run ends. */
  datatype Outcome =
    | Skipped                                    // the file held no statements
    | Completed(executed: nat)                   // every statement ran
    | Failed(number: nat, shown: seq<byte>)      // statement `number` (1-based) failed; `shown` is its display form

  /** The display budget of a failing statement in the error message. */
  const ErrorDisplayLen: int := 50

  /**
   * Runs `statements` in order; `accepts[i]` is the database's answer to
   * the `i`-th statement. Returns the statements that were sent and how
   * the run ended.
   */
  method RunInit(statements: seq<string>, accepts: seq<bool>) returns (sent: seq<string>, outcome: Outcome)
    requires |accepts| == |statements|
    ensures outcome.Skipped? <==> statements == []
    ensures outcome.Completed? <==> statements != [] && forall i :: 0 <= i < |accepts| ==> accepts[i]
    ensures outcome.Completed? ==> outcome.executed == |statements| && sent == statements
    ensures outcome.Failed? ==>
      && 1 <= outcome.number <= |statements|
      && !accepts[outcome.number - 1]
      && (forall i :: 0 <= i < outcome.number - 1 ==> accepts[i])
      && sent == statements[..outcome.number]
      && outcome.shown == Truncate(statements[outcome.number - 1], ErrorDisplayLen)
    ensures outcome.Skipped? ==> sent == []
  {
    if |statements| == 0 {
      return [], Skipped;
    }
    sent := [];
    var i := 0;
    while i < |statements|
      invariant 0 <= i <= |statements|
      invariant sent == statements[..i]
      invariant forall j :: 0 <= j < i ==> accepts[j]
    {
      sent := sent + [statements[i]];
      if !accepts[i] {
        assert sent == statements[..i + 1];
        return sent, Failed(i + 1, Truncate(statements[i], ErrorDisplayLen));
      }
      i := i + 1;
    }
    assert statements[..i] == statements;
    return sent, Completed(|statements|);
  }
}
