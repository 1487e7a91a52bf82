/** Environment namespaces: the environment id without its dashes. The administrator's is empty. */
module Environments {

  const ADMIN_NAMESPACE := ""

  predicate Namespace(env: string) {
    forall c :: c in env ==> 'a' <= c <= 'z' || '0' <= c <= '9'
  }

  /** What the environment service accepts as an id. */
  predicate EnvironmentId(id: string) {
    1 <= |id| <= 50 && forall c :: c in id ==> 'a' <= c <= 'z' || '0' <= c <= '9' || c == '-'
  }

  function NamespaceOf(id: string): string {
    if id == "" then ""
    else if id[0] == '-' then NamespaceOf(id[1..])
    else [id[0]] + NamespaceOf(id[1..])
  }

  lemma {:induction false} NamespaceOfChars(id: string, c: char)
    ensures c in NamespaceOf(id) <==> c in id && c != '-'
  {
    if id != "" {
      NamespaceOfChars(id[1..], c);
      assert id == [id[0]] + id[1..];
    }
  }

  lemma NamespaceOfId(id: string)
    requires EnvironmentId(id)
    ensures Namespace(NamespaceOf(id))
    ensures NamespaceOf(id) == ADMIN_NAMESPACE <==> forall c :: c in id ==> c == '-'
  {
    forall c ensures c in NamespaceOf(id) <==> c in id && c != '-' {
      NamespaceOfChars(id, c);
    }
    if NamespaceOf(id) != "" {
      assert NamespaceOf(id)[0] in NamespaceOf(id);
    }
  }
}
