/**
 * The fault barrier `Recover`: a callback either returns its error or panics;
 * the barrier turns a panic into an ordinary error whose message is the
 * panic value after the prefix "panic: ".
 */
module FaultBarrier {
  import opened Wrappers

  /**
   * How a callback ends: returning its error (None is nil), or panicking. A
   * panic value is kept as the text `%s` renders it as.
   */
  datatype Outcome = Returned(err: Option<Error>) | Panicked(value: string)

  const PanicPrefix: string := "panic: "

  /** Recover(cb): a panic becomes an error "panic: <value>"; anything else passes through. */
  function Recover(cb: () -> Outcome): (err: Option<Error>)
    ensures cb().Panicked? ==> err == Some(Error(PanicPrefix + cb().value))
    ensures cb().Returned? ==> err == cb().err
  {
    match cb()
    case Returned(e) => e
    case Panicked(v) => Some(Error(PanicPrefix + v))
  }

  /** The panic value an error message carries after the prefix, if it has the prefix. */
  function PanicValue(e: Error): (v: Option<string>)
    ensures v.Some? <==> |PanicPrefix| <= |e.message| && e.message[..|PanicPrefix|] == PanicPrefix
    ensures v.Some? ==> e.message == PanicPrefix + v.value
  {
    if |PanicPrefix| <= |e.message| && e.message[..|PanicPrefix|] == PanicPrefix
    then Some(e.message[|PanicPrefix|..])
    else None
  }

  /** The error a recovered panic becomes gives the panic value back. */
  lemma RecoverKeepsPanicValue(cb: () -> Outcome)
    requires cb().Panicked?
    ensures Recover(cb).Some? && PanicValue(Recover(cb).value) == Some(cb().value)
  {
    var msg := PanicPrefix + cb().value;
    assert msg[..|PanicPrefix|] == PanicPrefix;
    assert msg[|PanicPrefix|..] == cb().value;
  }

  /** The barrier reports no error exactly when the callback returned nil without panicking. */
  lemma RecoverNilIff(cb: () -> Outcome)
    ensures Recover(cb) == None <==> cb() == Returned(None)
  {
  }

  /** Putting a second barrier around the first changes nothing. */
  lemma RecoverIdempotent(cb: () -> Outcome)
    ensures Recover(() => Returned(Recover(cb))) == Recover(cb)
  {
  }

  /** The three cases of the barrier's table-driven test. */
  lemma RecoverTableCases()
    ensures Recover(() => Returned(None)) == None
    ensures Recover(() => Panicked("can not handle that")) == Some(Error("panic: can not handle that"))
    ensures Recover(() => Returned(Some(Error("callback error")))) == Some(Error("callback error"))
  {
    var message := "panic: can not handle that";
    assert message == message[..|PanicPrefix|] + message[|PanicPrefix|..];
    assert message[..|PanicPrefix|] == PanicPrefix;
    assert message[|PanicPrefix|..] == "can not handle that";
  }
}
