/** IlluminaProject.full_name: the name of a project's analysis directory. */
module Projects {
  import opened Wrappers

  /** "<name>_<expt_type>", or the bare name when no experiment type is set. */
  function FullName(name: string, exptType: Option<string>): string {
    match exptType
    case None => name
    case Some(t) => name + "_" + t
  }

  /** The full name starts with the project name, and what follows it
      gives back the experiment type: nothing when there is none, an
      underscore and the type otherwise. */
  lemma FullNameSpec(name: string, exptType: Option<string>)
    ensures var full := FullName(name, exptType);
      && |full| >= |name| && full[..|name|] == name
      && (exptType.None? <==> |full| == |name|)
      && (exptType.Some? ==> full[|name|] == '_' && full[|name| + 1..] == exptType.value)
  {
  }

  /** Within one project, different experiment types give different full
      names, so the type can be read back from the full name. */
  lemma FullNameInjective(name: string, e1: Option<string>, e2: Option<string>)
    requires FullName(name, e1) == FullName(name, e2)
    ensures e1 == e2
  {
    FullNameSpec(name, e1);
    FullNameSpec(name, e2);
  }
}
