/** Users and roles: what a permission is granted to. */
module Subjects {
  import opened Separators

  datatype Kind = User | Role

  datatype Subject = Subject(kind: Kind, name: string)

  function KindText(k: Kind): string {
    match k
    case User => "user"
    case Role => "role"
  }

  /** `type:id`, the row key of the grids and the subject in the admin log. */
  function Label(s: Subject): string {
    KindText(s.kind) + ":" + s.name
  }

  /** A row key back into a type and an id, which may itself contain colons. */
  function ParseRow(row: string): (string, string) {
    SplitAt(row, ':')
  }

  lemma ParseLabel(s: Subject)
    ensures ParseRow(Label(s)) == (KindText(s.kind), s.name)
  {
    SplitJoined(':', KindText(s.kind), s.name);
  }

  lemma LabelIsUnique(a: Subject, b: Subject)
    requires Label(a) == Label(b)
    ensures a == b
  {
    ParseLabel(a);
    ParseLabel(b);
    assert KindText(a.kind)[0] == KindText(b.kind)[0];
  }
}
