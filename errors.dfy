/** The error type of the policy adapters (src/errors.rs) and its
    human-readable rendering. */
module Errors {
  import opened Wrappers

  /** `CasbinError`. The wrapped `io::Error` is a foreign value; it is kept
      as the text its own `Display` produces. */
  datatype CasbinError =
    | Io(err: string)
    | Error(msg: string)
    | ParsingFailure(msg: string)

  /** `crate::Result<T>`: a value or a `CasbinError`. */
  datatype Result<+T> = Ok(value: T) | Err(error: CasbinError)

  const IoPrefix: string := "Casbin error, IO error: "
  const ErrorPrefix: string := "Casbin error: msg="
  const ParsingPrefix: string := "Casbin error, Parsing failure: msg="

  /** `From<io::Error>`: every I/O failure becomes the `Io` variant. */
  function FromIoError(err: string): (e: CasbinError)
    ensures e.Io? && e.err == err
  {
    Io(err)
  }

  /** `Display::fmt`: a fixed prefix per variant followed by the payload. */
  function Display(e: CasbinError): (s: string)
    ensures "Casbin error" <= s
  {
    match e
    case Io(err) => IoPrefix + err
    case Error(msg) => ErrorPrefix + msg
    case ParsingFailure(msg) => ParsingPrefix + msg
  }

  /** Reads an error back from its rendering: the inverse of `Display`. */
  function FromMessage(s: string): (r: Option<CasbinError>)
    ensures r.Some? ==> Display(r.value) == s
  {
    if IoPrefix <= s then Some(Io(s[|IoPrefix|..]))
    else if ErrorPrefix <= s then Some(Error(s[|ErrorPrefix|..]))
    else if ParsingPrefix <= s then Some(ParsingFailure(s[|ParsingPrefix|..]))
    else None
  }

  /** No variant's prefix is a prefix of another's: the first 15 characters
      of a message already tell the three variants apart. */
  lemma PrefixesDisjoint(x: string, y: string)
    ensures !(ErrorPrefix <= IoPrefix + x) && !(IoPrefix <= ErrorPrefix + y)
    ensures !(ErrorPrefix <= ParsingPrefix + x) && !(ParsingPrefix <= ErrorPrefix + y)
    ensures !(IoPrefix <= ParsingPrefix + x) && !(ParsingPrefix <= IoPrefix + y)
  {
    assert (IoPrefix + x)[12] == ',' && (ParsingPrefix + x)[12] == ',';
    assert (ErrorPrefix + y)[12] == ':' && ErrorPrefix[12] == ':';
    assert (IoPrefix + y)[14] == 'I' && IoPrefix[14] == 'I';
    assert (ParsingPrefix + x)[14] == 'P' && ParsingPrefix[14] == 'P';
  }

  /** The variant and its payload can be recovered from every message. */
  lemma DisplayRecoverable(e: CasbinError)
    ensures FromMessage(Display(e)) == Some(e)
  {
    match e
    case Io(err) =>
      assert (IoPrefix + err)[|IoPrefix|..] == err;
    case Error(msg) =>
      PrefixesDisjoint(msg, msg);
      assert (ErrorPrefix + msg)[|ErrorPrefix|..] == msg;
    case ParsingFailure(msg) =>
      PrefixesDisjoint(msg, msg);
      assert (ParsingPrefix + msg)[|ParsingPrefix|..] == msg;
  }

  /** Distinct errors never print the same message. */
  lemma DisplayInjective(a: CasbinError, b: CasbinError)
    ensures Display(a) == Display(b) ==> a == b
  {
    DisplayRecoverable(a);
    DisplayRecoverable(b);
  }
}
