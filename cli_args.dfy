/**
  The argument type of the `-c/--max-count` and `-e/--max-epoch` options
  of the command-line tool.
*/
module CliArgs {
  import opened Wrappers
  import opened Decimal

  /** Why an option value was refused: `int` could not read it, or it was not above zero. */
  datatype ArgError = NotAnInt | NotPositive

  /**
    `positive_int`: accepts exactly the values `int` reads as a number
    above zero, and gives that number back.
  */
  function PositiveInt(value: string): (r: Result<int, ArgError>)
    ensures r.Ok? <==> ParseInt(value).Some? && ParseInt(value).value > 0
    ensures r.Ok? ==> r.value == ParseInt(value).value
    ensures r == Raise(NotAnInt) <==> ParseInt(value).None?
  {
    match ParseInt(value)
    case None => Raise(NotAnInt)
    case Some(i) => if i <= 0 then Raise(NotPositive) else Ok(i)
  }

  /** The decimal spelling of a number reads back as itself when it is positive, and is refused otherwise. */
  lemma PositiveIntRoundTrip(n: int)
    ensures n > 0 ==> PositiveInt(IntToString(n)) == Ok(n)
    ensures n <= 0 ==> PositiveInt(IntToString(n)) == Raise(NotPositive)
  {
    ParseIntToString(n);
  }
}
