/** Reading and validating the action's inputs, in the order `run` does it:
    the flags are `true` only for the exact text "true"; an empty `max-age`
    and then an empty `token` are refused; `max-age` must parse as a
    duration, and a non-empty `max-total-size` as a size (an empty one means
    no budget). Each refusal is the message `core.setFailed` receives. */
module Config {
  import opened Wrappers
  import opened Duration
  import opened SizeParser

  /** The raw input strings, as `core.getInput` returns them. */
  datatype Inputs = Inputs(
    debug: string,
    maxAge: string,
    maxTotalSize: string,
    accessed: string,
    created: string,
    token: string)

  /** The validated settings; `maxAge` is in seconds and `maxTotalSize` in
      bytes, `None` standing for the `Infinity` of an unset budget. */
  datatype Settings = Settings(
    debug: bool,
    maxAge: nat,
    maxTotalSize: Option<real>,
    accessed: bool,
    created: bool,
    token: string)

  function Flag(value: string): bool {
    value == "true"
  }

  const MaxAgeMissing := "Input 'max-age' is required and cannot be empty."
  const TokenMissing := "Input 'token' is required and cannot be empty."
  const MaxAgeInvalid := "Invalid 'max-age' input: "
  const MaxTotalSizeInvalid := "Invalid 'max-total-size' input: "

  /** Validation fails exactly when one of the four checks does, and the
      first failing check in source order names the message. On success
      every setting is the parse of its input: the flags are the exact text
      "true", the age is the parsed duration, and the budget is absent
      exactly when its input is empty. */
  function ParseConfig(inputs: Inputs): (r: Result<Settings, string>)
    ensures r.Failure? <==>
      || inputs.maxAge == ""
      || inputs.token == ""
      || ParseTime(inputs.maxAge).Failure?
      || (inputs.maxTotalSize != "" && ParseSize(inputs.maxTotalSize).Failure?)
    ensures inputs.maxAge == "" ==> r == Failure(MaxAgeMissing)
    ensures inputs.maxAge != "" && inputs.token == "" ==> r == Failure(TokenMissing)
    ensures inputs.maxAge != "" && inputs.token != "" && ParseTime(inputs.maxAge).Failure? ==>
      r == Failure(MaxAgeInvalid + TimeErrorMessage(InvalidTimeFormat(inputs.maxAge)))
    ensures (inputs.maxAge != "" && inputs.token != "" && ParseTime(inputs.maxAge).Success?
             && inputs.maxTotalSize != "" && ParseSize(inputs.maxTotalSize).Failure?) ==>
      r == Failure(MaxTotalSizeInvalid + SizeErrorMessage(ParseSize(inputs.maxTotalSize).error))
    ensures r.Success? ==>
      && r.value.token == inputs.token
      && ParseTime(inputs.maxAge) == Success(r.value.maxAge)
      && (r.value.debug <==> inputs.debug == "true")
      && (r.value.accessed <==> inputs.accessed == "true")
      && (r.value.created <==> inputs.created == "true")
      && (r.value.maxTotalSize.None? <==> inputs.maxTotalSize == "")
      && (r.value.maxTotalSize.Some? ==> ParseSize(inputs.maxTotalSize) == Success(r.value.maxTotalSize.value))
  {
    if inputs.maxAge == "" then Failure(MaxAgeMissing)
    else if inputs.token == "" then Failure(TokenMissing)
    else match ParseTime(inputs.maxAge)
      case Failure(e) => Failure(MaxAgeInvalid + TimeErrorMessage(e))
      case Success(maxAge) =>
        var budget :=
          if inputs.maxTotalSize == "" then Success(None)
          else match ParseSize(inputs.maxTotalSize)
            case Failure(e) => Failure(MaxTotalSizeInvalid + SizeErrorMessage(e))
            case Success(bytes) => Success(Some(bytes));
        match budget
        case Failure(message) => Failure(message)
        case Success(maxTotalSize) =>
          Success(Settings(Flag(inputs.debug), maxAge, maxTotalSize, Flag(inputs.accessed), Flag(inputs.created), inputs.token))
  }
}
