// The closing report of a run: every port that collected warnings or
// errors and was not updated counts as a bad port, and with the check flag
// set, bad ports turn into a non-zero exit status.

module Report {

  /** The messages collected for one port, in the order the run met the port. */
  datatype Messages = Messages(port: string, warnings: seq<string>, errors: seq<string>)

  /** Which kind of message a count looks at. */
  datatype Kind = Warnings | Errors

  const EXIT_OK: int := 0
  const EXIT_WARNINGS: int := 127
  const EXIT_ERRORS: int := 255

  /** A port that was not updated and holds at least one message of kind `k`. */
  predicate Flagged(m: Messages, updated: set<string>, k: Kind)
  {
    m.port !in updated && |if k == Errors then m.errors else m.warnings| > 0
  }

  /** The number of flagged ports among `ms`, counted from the back. */
  function CountFlagged(ms: seq<Messages>, updated: set<string>, k: Kind): (n: nat)
    ensures n <= |ms|
  {
    if ms == [] then 0
    else CountFlagged(ms[..|ms| - 1], updated, k) + (if Flagged(ms[|ms| - 1], updated, k) then 1 else 0)
  }

  /** A count is positive exactly when some port is flagged. */
  lemma {:induction false} CountPositive(ms: seq<Messages>, updated: set<string>, k: Kind)
    ensures CountFlagged(ms, updated, k) > 0 <==> exists i :: 0 <= i < |ms| && Flagged(ms[i], updated, k)
  {
    if ms != [] {
      var init := ms[..|ms| - 1];
      CountPositive(init, updated, k);
      if exists i :: 0 <= i < |init| && Flagged(init[i], updated, k) {
        var i :| 0 <= i < |init| && Flagged(init[i], updated, k);
        assert ms[i] == init[i];
      }
      if exists i :: 0 <= i < |ms| && Flagged(ms[i], updated, k) {
        var i :| 0 <= i < |ms| && Flagged(ms[i], updated, k);
        if i < |init| {
          assert init[i] == ms[i];
        }
      }
    }
  }

  /** The two counters of the report loop: ports with warnings, ports with errors. */
  method Tally(ms: seq<Messages>, updated: set<string>) returns (warnings: nat, errors: nat)
    ensures warnings == CountFlagged(ms, updated, Warnings)
    ensures errors == CountFlagged(ms, updated, Errors)
  {
    warnings, errors := 0, 0;
    var i := 0;
    while i < |ms|
      invariant 0 <= i <= |ms|
      invariant warnings == CountFlagged(ms[..i], updated, Warnings)
      invariant errors == CountFlagged(ms[..i], updated, Errors)
    {
      var m := ms[i];
      assert ms[..i + 1][..i] == ms[..i];
      if m.port !in updated {
        if |m.warnings| > 0 {
          warnings := warnings + 1;
        }
        if |m.errors| > 0 {
          errors := errors + 1;
        }
      }
      i := i + 1;
    }
    assert ms[..|ms|] == ms;
  }

  /** The exit status chosen from the two counters. */
  function StatusOf(warnings: nat, errors: nat, doCheck: bool): (code: int)
    ensures code == EXIT_ERRORS <==> doCheck && errors > 0
    ensures code == EXIT_WARNINGS <==> doCheck && errors == 0 && warnings > 0
    ensures code == EXIT_OK <==> !doCheck || (errors == 0 && warnings == 0)
  {
    if doCheck && errors > 0 then EXIT_ERRORS
    else if doCheck && warnings > 0 then EXIT_WARNINGS
    else EXIT_OK
  }

  /**
   * The exit status of a run: errors win over warnings, and without the
   * check flag the status is always zero.
   */
  method ExitStatus(ms: seq<Messages>, updated: set<string>, doCheck: bool) returns (code: int)
    ensures code == EXIT_ERRORS <==>
      doCheck && exists i :: 0 <= i < |ms| && Flagged(ms[i], updated, Errors)
    ensures code == EXIT_WARNINGS <==>
      doCheck && (forall i :: 0 <= i < |ms| ==> !Flagged(ms[i], updated, Errors))
              && (exists i :: 0 <= i < |ms| && Flagged(ms[i], updated, Warnings))
    ensures code == EXIT_OK <==>
      !doCheck || forall i :: 0 <= i < |ms| ==> !Flagged(ms[i], updated, Errors) && !Flagged(ms[i], updated, Warnings)
  {
    var warnings, errors := Tally(ms, updated);
    CountPositive(ms, updated, Warnings);
    CountPositive(ms, updated, Errors);
    code := StatusOf(warnings, errors, doCheck);
  }
}
