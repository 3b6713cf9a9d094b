/** A known student (class Student): the identity parsed from an image text
    "Prenom_Nom" and the entry time recorded for the current session.
 */
module Students {
  import opened Wrappers
  import opened Builtins

  datatype Student = Student(prenom: string, nom: string, fullName: string, entryTime: Option<string>)

  /** `is_present()`: an entry time has been recorded. */
  predicate IsPresent(s: Student)
  {
    s.entryTime.Some?
  }

  /** `Student(name)`: the text is kept whole as the full name; the first
      name is the text before the first underscore and the last name the text
      between the first and the second underscore, or empty when the text
      has no underscore. A new student has no entry time. */
  function NewStudent(name: string): (s: Student)
    ensures s.fullName == name
    ensures !IsPresent(s)
    ensures '_' !in s.prenom && '_' !in s.nom
    ensures '_' !in name ==> s.prenom == name && s.nom == ""
    ensures '_' in name ==> |s.prenom| < |name| && name[..|s.prenom| + 1] == s.prenom + "_"
    ensures '_' in name ==>
      var rest := name[|s.prenom| + 1..];
      && |s.nom| <= |rest| && rest[..|s.nom|] == s.nom
      && (|s.nom| == |rest| || rest[|s.nom|] == '_')
  {
    var parts := Split(name, '_');
    SplitSingle(name, '_');
    SplitPrefix(name, '_');
    Student(
      if |parts| > 0 then parts[0] else name,
      if |parts| > 1 then parts[1] else "",
      name,
      None)
  }

  /** `mark_present(t)`: records `t` as the entry time, replacing any earlier
      one; the identity is untouched. */
  function MarkPresent(s: Student, entryTime: string): (s': Student)
    ensures IsPresent(s') && s'.entryTime == Some(entryTime)
    ensures s'.prenom == s.prenom && s'.nom == s.nom && s'.fullName == s.fullName
  {
    s.(entryTime := Some(entryTime))
  }

  /** Marking twice keeps the second time: the student alone does not make the
      first detection win. */
  lemma MarkPresentOverwrites(s: Student, t1: string, t2: string)
    ensures MarkPresent(MarkPresent(s, t1), t2).entryTime == Some(t2)
    ensures MarkPresent(MarkPresent(s, t1), t2) == MarkPresent(s, t2)
  {
  }

  /** A label built from an underscore-free first and last name, optionally
      followed by further underscore-separated text, yields those names back. */
  lemma NewStudentOfLabel(prenom: string, nom: string, suffix: string)
    requires '_' !in prenom && '_' !in nom
    requires suffix == "" || suffix[0] == '_'
    ensures var s := NewStudent(prenom + "_" + nom + suffix);
      s.prenom == prenom && s.nom == nom
  {
    var text := prenom + "_" + nom + suffix;
    assert text == prenom + ['_'] + (nom + suffix);
    SplitAfterFree(prenom, nom + suffix, '_');
    if suffix == "" {
      assert nom + suffix == nom;
      SplitSingle(nom, '_');
      assert Split(nom, '_') == [nom];
    } else {
      assert nom + suffix == nom + ['_'] + suffix[1..];
      SplitAfterFree(nom, suffix[1..], '_');
    }
  }
}
