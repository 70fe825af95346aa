/**
 * `ConfigurationsDeleteRequest.Validate`: a request names either one
 * version number or an inclusive version range. Three rules run in order,
 * and each one that fires adds one validation result.
 */
module ConfigurationsDeleteRequest {
  import opened Wrappers

  datatype DeleteRequest = DeleteRequest(versionNumber: Option<int>, rangeStart: Option<int>, rangeEnd: Option<int>)

  datatype ValidationResult = ValidationResult(errorMessage: string, memberNames: seq<string>)

  const InformationRequired := "Version number information is required."
  const NotBoth := "Request may contain a version number or version number range.  Not both."
  const RangeInvalid := "Version number range is invalid."

  const AllMembers := ["VersionNumber", "VersionNumberRangeStart", "VersionNumberRangeEnd"]
  const RangeMembers := ["VersionNumberRangeStart", "VersionNumberRangeEnd"]

  const InformationRequiredResult := ValidationResult(InformationRequired, AllMembers)
  const NotBothResult := ValidationResult(NotBoth, AllMembers)
  const RangeInvalidResult := ValidationResult(RangeInvalid, RangeMembers)

  /** The position of a rule's result in the output; -1 for anything else. */
  function RuleIndex(v: ValidationResult): int {
    if v == InformationRequiredResult then 0
    else if v == NotBothResult then 1
    else if v == RangeInvalidResult then 2
    else -1
  }

  function Validate(r: DeleteRequest): (results: seq<ValidationResult>)
    ensures |results| <= 3
    ensures forall i | 0 <= i < |results| :: RuleIndex(results[i]) >= 0
    ensures forall i, j | 0 <= i < j < |results| :: RuleIndex(results[i]) < RuleIndex(results[j])
    ensures InformationRequiredResult in results <==>
      r.versionNumber.None? && r.rangeStart.None? && r.rangeEnd.None?
    ensures NotBothResult in results <==>
      r.versionNumber.Some? && (r.rangeStart.Some? || r.rangeEnd.Some?)
    ensures RangeInvalidResult in results <==>
      (r.rangeStart.Some? != r.rangeEnd.Some?) ||
      (r.rangeStart.Some? && r.rangeEnd.Some? && r.rangeStart.value > r.rangeEnd.value)
  {
    var first := if r.versionNumber.None? && r.rangeStart.None? && r.rangeEnd.None? then [InformationRequiredResult] else [];
    var second := if r.versionNumber.Some? && (r.rangeStart.Some? || r.rangeEnd.Some?) then [NotBothResult] else [];
    var third :=
      if (r.rangeStart.Some? && r.rangeEnd.Some? && r.rangeStart.value > r.rangeEnd.value)
         || (r.rangeStart.Some? && r.rangeEnd.None?)
         || (r.rangeStart.None? && r.rangeEnd.Some?)
      then [RangeInvalidResult] else [];
    first + second + third
  }

  /**
   * A request is valid exactly when it names a version number alone, or an
   * ordered range alone.
   */
  lemma ValidIff(r: DeleteRequest)
    ensures Validate(r) == [] <==>
      || (r.versionNumber.Some? && r.rangeStart.None? && r.rangeEnd.None?)
      || (r.versionNumber.None? && r.rangeStart.Some? && r.rangeEnd.Some? && r.rangeStart.value <= r.rangeEnd.value)
  {
    var v := Validate(r);
    if v != [] {
      assert v[0] in v;
    }
  }

  /** A request with nothing in it gets exactly the "required" result. */
  lemma EmptyRequestResult()
    ensures Validate(DeleteRequest(None, None, None)) == [InformationRequiredResult]
  {
  }

  /** A version number together with exactly one range bound breaks two rules. */
  lemma VersionWithOneBound(n: int, bound: int, atStart: bool)
    ensures var r := if atStart then DeleteRequest(Some(n), Some(bound), None) else DeleteRequest(Some(n), None, Some(bound));
      Validate(r) == [NotBothResult, RangeInvalidResult]
  {
  }

  /** Every result carries the member names its rule names. */
  lemma MemberNames(r: DeleteRequest)
    ensures forall v | v in Validate(r) ::
      (v.errorMessage == RangeInvalid ==> v.memberNames == RangeMembers) &&
      (v.errorMessage != RangeInvalid ==> v.memberNames == AllMembers)
  {
  }
}
