/**
 * Command-line validation shared by every stage of the lab: the teacher checks
 * the number of parts `p` and the slice count `t`, and each student checks its
 * own issue probability before it starts working.
 *
 * Text parsing (`atoi`) is not modelled: the arguments arrive as integers.
 */
module Args {

  const MinParts := 1
  const MaxParts := 10
  const MinSlices := 1
  const MaxSlices := 10
  const MaxProbability := 100

  /** Why the teacher refuses to start. */
  datatype ArgError =
    | Usage              // fewer than three arguments after the program name
    | BadPartsOrSlices   // p or t outside 1..10

  datatype Result<T> = Ok(value: T) | Err(error: ArgError)

  /** The run configuration once the teacher has accepted its arguments. */
  datatype Config = Config(parts: int, slices: int, probabilities: seq<int>)

  /**
   * The range check on `p` and `t`, written as the source writes it (a
   * rejection test). A pair it lets through asks each student for at most
   * 100 slices.
   */
  predicate BadRange(p: int, t: int): (bad: bool)
    ensures !bad ==> 1 <= p * t <= MaxParts * MaxSlices
  {
    var rejected := p < MinParts || p > MaxParts || t < MinSlices || t > MaxSlices;
    if rejected then rejected
    else
      PartsTimesSlicesBounded(p, t);
      rejected
  }

  /** The student's own check: a probability outside 0..100 makes it exit with failure. */
  predicate ValidProbability(q: int)
  {
    !(q < 0 || q > MaxProbability)
  }

  /**
   * The teacher's argument handling. `args` is argv without the program name,
   * so the source's `argc < 4` is `|args| < 3`; the number of students is
   * `argc - 3`, the number of probabilities.
   */
  function ParseArgs(args: seq<int>): (r: Result<Config>)
    ensures r.Ok? <==> |args| >= 3 && MinParts <= args[0] <= MaxParts && MinSlices <= args[1] <= MaxSlices
    ensures |args| < 3 ==> r == Err(Usage)
    ensures |args| >= 3 && BadRange(args[0], args[1]) ==> r == Err(BadPartsOrSlices)
    ensures r.Ok? ==> r.value.parts == args[0] && r.value.slices == args[1]
    ensures r.Ok? ==> r.value.probabilities == args[2..] && |r.value.probabilities| >= 1
    ensures r.Ok? ==> 1 <= r.value.parts * r.value.slices <= MaxParts * MaxSlices
  {
    if |args| < 3 then Err(Usage)
    else
      var p, t := args[0], args[1];
      if BadRange(p, t) then Err(BadPartsOrSlices)
      else Ok(Config(p, t, args[2..]))
  }

  /** Parts and slices within their ranges never ask a student for more than 100 slices. */
  lemma PartsTimesSlicesBounded(p: int, t: int)
    requires MinParts <= p <= MaxParts && MinSlices <= t <= MaxSlices
    ensures 1 <= p * t <= MaxParts * MaxSlices
  {
    assert p * t <= MaxParts * t;
    assert MaxParts * t <= MaxParts * MaxSlices;
  }
}
