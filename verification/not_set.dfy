/** The error a getter reports when git has no value for the key it asked about. */
module NotSetErrors {

  datatype NotSetError = NotSetError(configName: string, global: bool)

  function ScopeWord(global: bool): string {
    if global then "global" else "local"
  }

  /** `NotSetError.Error`: "no <scope> <config name> set". */
  function Message(e: NotSetError): (m: string)
    ensures |m| >= 7 && m[..3] == "no " && m[|m| - 4..] == " set"
    ensures e.global ==> "no global " <= m
    ensures !e.global ==> "no local " <= m
    ensures m[3..|m| - 4] == ScopeWord(e.global) + " " + e.configName
  {
    "no " + ScopeWord(e.global) + " " + e.configName + " set"
  }

  /** The message determines the error: scope and config name can both be read back from it. */
  lemma MessageInjective(a: NotSetError, b: NotSetError)
    requires Message(a) == Message(b)
    ensures a == b
  {
    var m := Message(a);
    assert m[3] == ScopeWord(a.global)[0] && Message(b)[3] == ScopeWord(b.global)[0];
    assert a.global == b.global;
    var w := |ScopeWord(a.global)| + 1;
    assert m[3..|m| - 4][w..] == a.configName;
    assert Message(b)[3..|m| - 4][w..] == b.configName;
  }

  /** A config name that itself says "global" still reads as local when the flag is left false. */
  lemma GlobalUserNameReadsLocal(e: NotSetError)
    requires e == NotSetError("global username", false)
    ensures Message(e) == "no local " + e.configName + " set"
  {
    assert "no " + ScopeWord(e.global) + " " == "no local ";
  }
}
