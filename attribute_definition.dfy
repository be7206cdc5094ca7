/**
 * `CustomAttributeDefinition`: one parsed entry of the `custom-attributes`
 * property. It is immutable, so it is a datatype; its constructor stores the
 * five fields unchanged.
 */
module AttributeDefinition {
  import opened Wrappers
  import JavaString

  /**
   * `method` and `type` are Dafny keywords, so those two fields are called
   * `methodToken` and `typeName` here.
   */
  datatype Definition = Definition(
    methodToken: string,
    form: string,
    name: string,
    typeName: string,
    options: Option<seq<string>>)
  {
    /** `canRead`: the lower-cased method token contains `r`. */
    function CanRead(): (b: bool)
      ensures b <==> 'r' in methodToken || 'R' in methodToken
    {
      JavaString.LowerContains(methodToken, 'r');
      'r' in JavaString.ToLowerCase(methodToken)
    }

    /** `canWrite`: the lower-cased method token contains `w`. */
    function CanWrite(): (b: bool)
      ensures b <==> 'w' in methodToken || 'W' in methodToken
    {
      JavaString.LowerContains(methodToken, 'w');
      'w' in JavaString.ToLowerCase(methodToken)
    }
  }

  /** A definition with the given method token and otherwise arbitrary fields. */
  function WithMethod(m: string): Definition
  {
    Definition(m, "", "", "", None)
  }

  /**
   * The two checks are independent letter tests: the order of the letters,
   * their case and any other letters around them do not matter.
   */
  lemma MethodTokenExamples()
    ensures WithMethod("rw").CanRead() && WithMethod("rw").CanWrite()
    ensures WithMethod("wr").CanRead() && WithMethod("wr").CanWrite()
    ensures WithMethod("RW").CanRead() && WithMethod("RW").CanWrite()
    ensures WithMethod("r").CanRead() && !WithMethod("r").CanWrite()
    ensures !WithMethod("w").CanRead() && WithMethod("w").CanWrite()
    ensures !WithMethod("").CanRead() && !WithMethod("").CanWrite()
    ensures !WithMethod("x").CanRead() && !WithMethod("x").CanWrite()
    ensures WithMethod("write").CanRead() && WithMethod("write").CanWrite()
    ensures WithMethod("read").CanRead() && !WithMethod("read").CanWrite()
  {
    assert "rw"[0] == 'r' && "rw"[1] == 'w';
    assert "wr"[0] == 'w' && "wr"[1] == 'r';
    assert "RW"[0] == 'R' && "RW"[1] == 'W';
    assert "r"[0] == 'r';
    assert "w"[0] == 'w';
    assert "write"[0] == 'w' && "write"[1] == 'r';
    assert "read"[0] == 'r';
  }

  /** Both checks depend on the method token only up to ASCII case. */
  lemma PermissionsIgnoreCase(a: Definition, b: Definition)
    requires JavaString.ToLowerCase(a.methodToken) == JavaString.ToLowerCase(b.methodToken)
    ensures a.CanRead() == b.CanRead() && a.CanWrite() == b.CanWrite()
  {
    JavaString.LowerContains(a.methodToken, 'r');
    JavaString.LowerContains(b.methodToken, 'r');
    JavaString.LowerContains(a.methodToken, 'w');
    JavaString.LowerContains(b.methodToken, 'w');
  }
}
