/** `extractClassParam`: reading the type argument at a position of a declared
    return type, with the reflective lookup reduced to a sequence of arguments. */
module TypeParams {
  import opened Wrappers
  import opened Decimal

  /** The two ways the lookup fails: the explicit guard (`index >= size`), and
      the list's own bounds check, which a negative index reaches. */
  datatype IndexError =
    | InvalidTypeParameterIndex(index: Int32)
    | ListIndexOutOfBounds(index: Int32)
  {
    /** The message of the thrown exception. Only the guard's message is
        written in `extractClassParam`; the list's own message is not. */
    function Message(): Option<string> {
      match this
      case InvalidTypeParameterIndex(i) => Some(GuardMessage(i))
      case ListIndexOutOfBounds(_) => None
    }
  }

  /** The message of the exception the guard throws. */
  function GuardMessage(index: Int32): (m: string)
    ensures |m| > 33 && m[..32] == "Invalid type parameter index of " && m[|m| - 1] == '!'
    ensures ParseInt(m[32..|m| - 1]) == Some(index as int)
  {
    var digits := IntToString(index as int);
    ParseIntToString(index as int);
    assert ("Invalid type parameter index of " + digits + "!")[32..|digits| + 32] == digits;
    "Invalid type parameter index of " + digits + "!"
  }

  /** The argument at `index`, or the exception `extractClassParam` throws. */
  function ExtractClassParam<T>(arguments: seq<T>, index: Int32): (r: Result<T, IndexError>)
    ensures r.Success? <==> 0 <= index as int < |arguments|
    ensures r.Success? ==> r.value == arguments[index]
    ensures index as int >= |arguments| ==> r == Failure(InvalidTypeParameterIndex(index))
    ensures index < 0 ==> r == Failure(ListIndexOutOfBounds(index))
  {
    if index as int >= |arguments| then Failure(InvalidTypeParameterIndex(index))
    else if index < 0 then Failure(ListIndexOutOfBounds(index))
    else Success(arguments[index])
  }

  /** An index past the arguments fails with the guard's message, which names
      the index. */
  lemma GuardFailureMessage<T>(arguments: seq<T>, index: Int32)
    requires index as int >= |arguments|
    ensures
      var r := ExtractClassParam(arguments, index);
      && r.Failure? && r.error.Message().Some?
      && var m := r.error.Message().value;
      && m[..32] == "Invalid type parameter index of " && m[|m| - 1] == '!'
      && ParseInt(m[32..|m| - 1]) == Some(index as int)
  {
  }

  /** Appending arguments never changes an index that was already in range, nor
      the outcome for a negative index. */
  lemma ExtractClassParamStable<T>(arguments: seq<T>, more: seq<T>, index: Int32)
    requires index as int < |arguments|
    ensures ExtractClassParam(arguments + more, index) == ExtractClassParam(arguments, index)
  {
  }

  /** The lookup commutes with transforming every argument (e.g. taking its classifier). */
  lemma ExtractClassParamMap<T, U>(arguments: seq<T>, f: T -> U, index: Int32)
    ensures
      var mapped := seq(|arguments|, i requires 0 <= i < |arguments| => f(arguments[i]));
      ExtractClassParam(mapped, index) ==
        match ExtractClassParam(arguments, index)
        case Success(t) => Success(f(t))
        case Failure(e) => Failure(e)
  {
  }
}
