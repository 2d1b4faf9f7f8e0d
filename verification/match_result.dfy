/**
 * match_result: checks an execution result against a match specification with the keys
 * `op` (contains, equal or regex), `target` (stdout, stderr or exception) and `value`
 * (a string). For the exception target the content compared is the name of the last
 * exception raised; when none was raised the match is false.
 */
module ResultMatching {
  import opened Wrappers
  import opened Text

  /** A value in the match specification: a string, or anything else. */
  datatype Field = Str(s: string) | NotStr

  type MatchSpec = map<string, Field>

  /** One raised exception: its name first, then its other fields. */
  datatype ExceptionRecord = ExceptionRecord(name: string, details: seq<string>)

  datatype ExecResult = ExecResult(stdout: string, stderr: string, exceptions: seq<ExceptionRecord>)

  /** Why a specification is refused: a missing key (TypeError), or a failed assertion. */
  datatype MatchError = WrongFormat | InvalidOperator | InvalidTarget | ValueNotString

  /** `regex` is Python's `re.search(pattern, content) is not None`, left abstract. */
  type Search = (string, string) -> bool

  // ---------------------------------------------------------------------------
  // Substrings

  /** Python's `v in c` on strings, scanning c from the left. */
  predicate Contains(c: string, v: string)
  {
    StartsWith(c, v) || (c != [] && Contains(c[1..], v))
  }

  /** v occurs in c starting at position i. */
  predicate OccursAt(c: string, v: string, i: int) {
    0 <= i <= |c| - |v| && c[i..i + |v|] == v
  }

  /** `v in c` holds exactly when v occurs in c at some position. */
  lemma {:induction false} ContainsIffOccurs(c: string, v: string)
    ensures Contains(c, v) <==> exists i :: OccursAt(c, v, i)
  {
    if Contains(c, v) {
      if StartsWith(c, v) {
        assert OccursAt(c, v, 0);
      } else {
        ContainsIffOccurs(c[1..], v);
        var i :| OccursAt(c[1..], v, i);
        assert c[i + 1..i + 1 + |v|] == c[1..][i..i + |v|];
        assert OccursAt(c, v, i + 1);
      }
    }
    if exists i :: OccursAt(c, v, i) {
      var i :| OccursAt(c, v, i);
      if i == 0 {
        assert StartsWith(c, v);
      } else {
        assert c[1..][i - 1..i - 1 + |v|] == c[i..i + |v|];
        assert OccursAt(c[1..], v, i - 1);
        ContainsIffOccurs(c[1..], v);
      }
    }
  }

  // ---------------------------------------------------------------------------
  // The matcher

  predicate HasKeys(spec: MatchSpec) {
    "op" in spec && "target" in spec && "value" in spec
  }

  predicate ValidOperator(f: Field) {
    f == Str("contains") || f == Str("equal") || f == Str("regex")
  }

  predicate ValidTarget(f: Field) {
    f == Str("stdout") || f == Str("stderr") || f == Str("exception")
  }

  /** Everything the matcher checks before it looks at the result. */
  predicate WellFormedSpec(spec: MatchSpec) {
    HasKeys(spec) && ValidOperator(spec["op"]) && ValidTarget(spec["target"]) && spec["value"].Str?
  }

  /** The text compared, or None for the exception target when nothing was raised. */
  function Content(result: ExecResult, target: string): Option<string>
    requires target in {"stdout", "stderr", "exception"}
  {
    if target == "stdout" then Some(result.stdout)
    else if target == "stderr" then Some(result.stderr)
    else if |result.exceptions| > 0 then Some(result.exceptions[|result.exceptions| - 1].name)
    else None
  }

  function MatchResult(result: ExecResult, spec: MatchSpec, search: Search): (r: Result<bool, MatchError>)
    ensures r.Ok? <==> WellFormedSpec(spec)
    ensures r == Ok(true) ==> WellFormedSpec(spec) && Content(result, spec["target"].s).Some?
  {
    if !HasKeys(spec) then Err(WrongFormat)
    else if !ValidOperator(spec["op"]) then Err(InvalidOperator)
    else if !ValidTarget(spec["target"]) then Err(InvalidTarget)
    else if !spec["value"].Str? then Err(ValueNotString)
    else
      var op, value := spec["op"].s, spec["value"].s;
      match Content(result, spec["target"].s)
      case None => Ok(false)
      case Some(content) =>
        if op == "contains" then Ok(Contains(content, value))
        else if op == "equal" then Ok(value == content)
        else Ok(search(value, content))
  }

  // ---------------------------------------------------------------------------
  // Properties

  /** A missing key is a TypeError, and only a missing key is. */
  lemma {:induction false} MissingKeyIsTypeError(result: ExecResult, spec: MatchSpec, search: Search)
    ensures MatchResult(result, spec, search) == Err(WrongFormat) <==> !HasKeys(spec)
  {
  }

  /** The matcher answers exactly when the specification is well formed. */
  lemma {:induction false} AnswersIffWellFormed(result: ExecResult, spec: MatchSpec, search: Search)
    ensures MatchResult(result, spec, search).Ok? <==> WellFormedSpec(spec)
    ensures HasKeys(spec) && !ValidOperator(spec["op"]) ==> MatchResult(result, spec, search) == Err(InvalidOperator)
    ensures HasKeys(spec) && ValidOperator(spec["op"]) && !ValidTarget(spec["target"]) ==>
      MatchResult(result, spec, search) == Err(InvalidTarget)
    ensures HasKeys(spec) && ValidOperator(spec["op"]) && ValidTarget(spec["target"]) && !spec["value"].Str? ==>
      MatchResult(result, spec, search) == Err(ValueNotString)
  {
  }

  /** Expecting an exception when none was raised is a plain mismatch, whatever the operator. */
  lemma {:induction false} NoExceptionNoMatch(result: ExecResult, spec: MatchSpec, search: Search)
    requires WellFormedSpec(spec) && spec["target"] == Str("exception")
    requires result.exceptions == []
    ensures MatchResult(result, spec, search) == Ok(false)
  {
  }

  /**
   * The outcome of a well-formed specification: the comparison its operator names, applied
   * to the stream named by its target or to the name of the last exception.
   */
  lemma {:induction false} MatchOutcome(result: ExecResult, spec: MatchSpec, search: Search)
    requires WellFormedSpec(spec)
    requires spec["target"] != Str("exception") || result.exceptions != []
    ensures var value := spec["value"].s;
      var content :=
        if spec["target"] == Str("stdout") then result.stdout
        else if spec["target"] == Str("stderr") then result.stderr
        else result.exceptions[|result.exceptions| - 1].name;
      && (spec["op"] == Str("equal") ==> (MatchResult(result, spec, search) == Ok(true) <==> value == content))
      && (spec["op"] == Str("contains") ==>
            (MatchResult(result, spec, search) == Ok(true) <==>
             exists i :: OccursAt(content, value, i)))
      && (spec["op"] == Str("regex") ==> MatchResult(result, spec, search) == Ok(search(value, content)))
  {
    var value := spec["value"].s;
    var content := Content(result, spec["target"].s).value;
    ContainsIffOccurs(content, value);
  }
}
