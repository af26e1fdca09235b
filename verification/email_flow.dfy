/** src/ai/flows/validate-email-flow.ts: an email is checked against
    `/^[\S@]+@[\S@]+\.[\S@]+$/` before a language model is asked about it. The model's
    answer is a function of the address. */
module EmailFlow {
  import opened Opt
  import opened Text

  datatype Verdict = Verdict(isValid: bool, reason: Option<string>)

  const FormatFailure: Verdict := Verdict(false, Some("Invalid email format."))

  predicate NoSpace(s: string) {
    forall i :: 0 <= i < |s| ==> !IsSpace(s[i])
  }

  /** The regular expression, read positionally: no whitespace, an `@` after at least one
      character, and a `.` with at least one character between it and that `@` and at least
      one after it. `[\S@]` admits `@`, so further `@`s may appear anywhere. */
  predicate FormatOk(s: string) {
    NoSpace(s) &&
    exists i, j :: 1 <= i && i + 2 <= j <= |s| - 2 && AtAndDot(s, i, j)
  }

  predicate AtAndDot(s: string, i: int, j: int) {
    0 <= i < |s| && 0 <= j < |s| && s[i] == '@' && s[j] == '.'
  }

  /** `s` is `x@y.z` with the three parts non-empty and free of whitespace. */
  predicate IsSplit(s: string, x: string, y: string, z: string) {
    x != "" && y != "" && z != "" && NoSpace(x) && NoSpace(y) && NoSpace(z) &&
    s == x + "@" + y + "." + z
  }

  /** An `@` and a `.` at admissible positions cut the address into its three parts. */
  lemma PositionsGiveSplit(s: string, i: int, j: int)
    requires NoSpace(s) && 1 <= i && i + 2 <= j <= |s| - 2 && AtAndDot(s, i, j)
    ensures IsSplit(s, s[..i], s[i + 1..j], s[j + 1..])
  {
    var x, y, z := s[..i], s[i + 1..j], s[j + 1..];
    assert s == x + "@" + y + "." + z;
    assert forall k :: 0 <= k < |y| ==> y[k] == s[i + 1 + k];
    assert forall k :: 0 <= k < |z| ==> z[k] == s[j + 1 + k];
  }

  /** The three parts of a split sit at positions the positional reading accepts. */
  lemma SplitGivesPositions(s: string, x: string, y: string, z: string)
    requires IsSplit(s, x, y, z)
    ensures FormatOk(s)
  {
    var i, j := |x|, |x| + 1 + |y|;
    assert s[i] == '@' && s[j] == '.';
    assert AtAndDot(s, i, j);
    assert !IsSpace('@') && !IsSpace('.');
    forall k | 0 <= k < |s| ensures !IsSpace(s[k]) {
      if k < i { assert s[k] == x[k]; }
      else if i < k < j { assert s[k] == y[k - i - 1]; }
      else if j < k { assert s[k] == z[k - j - 1]; }
    }
  }

  /** The positional reading agrees with the regular expression's split form, both ways. */
  lemma FormatOkIffSplits(s: string)
    ensures FormatOk(s) <==> exists x, y, z :: IsSplit(s, x, y, z)
  {
    if FormatOk(s) {
      var i, j :| 1 <= i && i + 2 <= j <= |s| - 2 && AtAndDot(s, i, j);
      PositionsGiveSplit(s, i, j);
    }
    if exists x, y, z :: IsSplit(s, x, y, z) {
      var x, y, z :| IsSplit(s, x, y, z);
      SplitGivesPositions(s, x, y, z);
    }
  }

  /** Whitespace anywhere, or no `@` at all, fails the check; extra `@`s do not. */
  lemma FormatExamples(s: string)
    ensures (exists k :: 0 <= k < |s| && IsSpace(s[k])) ==> !FormatOk(s)
    ensures '@' !in s ==> !FormatOk(s)
    ensures FormatOk("a@b@c.d")
  {
    forall i, j | AtAndDot(s, i, j) ensures '@' in s {
      assert s[i] in s;
    }
    assert AtAndDot("a@b@c.d", 1, 5);
  }

  /** The regular expression as a scan: the first `@` past position 0 and the last `.` before
      the final character must leave room for a middle part. */
  method CheckFormat(s: string) returns (ok: bool)
    ensures ok <==> FormatOk(s)
  {
    var k := 0;
    while k < |s|
      invariant 0 <= k <= |s|
      invariant forall m :: 0 <= m < k ==> !IsSpace(s[m])
    {
      if IsSpace(s[k]) {
        return false;
      }
      k := k + 1;
    }
    var at := 1;
    while at < |s| && s[at] != '@'
      invariant 1 <= at
      invariant forall m :: 1 <= m < at && m < |s| ==> s[m] != '@'
    {
      at := at + 1;
    }
    var dot := |s| - 2;
    while dot >= 0 && s[dot] != '.'
      invariant dot <= |s| - 2
      invariant forall m :: dot < m <= |s| - 2 && 0 <= m ==> s[m] != '.'
    {
      dot := dot - 1;
    }
    ok := at < |s| && dot >= 0 && at + 2 <= dot;
    if ok {
      assert AtAndDot(s, at, dot);
    }
    forall i, j | 1 <= i && i + 2 <= j <= |s| - 2 && AtAndDot(s, i, j)
      ensures at <= i && j <= dot && ok
    {
    }
  }

  /** The flow: a malformed address is answered locally; any other goes to the model. */
  function Validate(email: string, ask: string -> Verdict): (r: Verdict)
    ensures !FormatOk(email) ==> r == FormatFailure
    ensures FormatOk(email) ==> r == ask(email)
  {
    if !FormatOk(email) then FormatFailure else ask(email)
  }

  /** The model's answer matters only for well-formed addresses. */
  lemma ModelOnlySeesWellFormed(email: string, ask1: string -> Verdict, ask2: string -> Verdict)
    ensures Validate(email, ask1) != Validate(email, ask2) ==> FormatOk(email) && ask1(email) != ask2(email)
  {
  }
}
