/**
 * The worked example of `parseModrinthProjects`' documentation, derived from the general
 * lemmas of `ModsInstaller`: the list is read piece by piece, and each piece is one
 * written reference.
 */
module InstallerExamples {
  import opened Wrappers
  import opened ModsInstaller

  /** The example in the function's own documentation, its text written as the
      concatenation of its parts. */
  lemma DocExample(s: string)
    requires s == "sodium" + ":" + "mc1.21.1-0.6.0-fabric" + "," + "lithium" + "," + "iris" + ":" + "1.8.0"
    ensures ParseProjects(Some(s)) ==
      [ProjectRef("sodium", Some("mc1.21.1-0.6.0-fabric")), ProjectRef("lithium", None), ProjectRef("iris", Some("1.8.0"))]
  {
    var a, b, c := "sodium" + ":" + "mc1.21.1-0.6.0-fabric", "lithium", "iris" + ":" + "1.8.0";
    assert s == a + "," + (b + "," + c);
    ThreePieces(s, a, b, c);
    Sodium(a, "sodium", "mc1.21.1-0.6.0-fabric");
    Lithium(b);
    Iris(c, "iris", "1.8.0");
    Singles(ParseProjects(Some(a)), ParseProjects(Some(b)), ParseProjects(Some(c)));
  }

  lemma Singles(xs: seq<ProjectRef>, ys: seq<ProjectRef>, zs: seq<ProjectRef>)
    requires |xs| == 1 && |ys| == 1 && |zs| == 1
    ensures xs + ys + zs == [xs[0], ys[0], zs[0]]
  {
  }

  lemma ThreePieces(s: string, a: string, b: string, c: string)
    requires s == a + "," + (b + "," + c)
    ensures ParseProjects(Some(s)) == ParseProjects(Some(a)) + ParseProjects(Some(b)) + ParseProjects(Some(c))
  {
    var bc := b + "," + c;
    ParseProjectsAppend(a, bc);
    ParseProjectsAppend(b, c);
    Regroup(ParseProjects(Some(s)), ParseProjects(Some(a)), ParseProjects(Some(bc)), ParseProjects(Some(b)), ParseProjects(Some(c)));
  }

  lemma Regroup(all: seq<ProjectRef>, xs: seq<ProjectRef>, rest: seq<ProjectRef>, ys: seq<ProjectRef>, zs: seq<ProjectRef>)
    requires all == xs + rest && rest == ys + zs
    ensures all == xs + ys + zs
  {
  }

  lemma Sodium(a: string, slug: string, v: string)
    requires slug == "sodium" && v == "mc1.21.1-0.6.0-fabric" && a == slug + ":" + v
    ensures ParseProjects(Some(a)) == [ProjectRef(slug, Some(v))]
  {
    SlugCharsArePlain(slug);
    SlugCharsArePlain(v);
    OneRef(a, ProjectRef(slug, Some(v)));
  }

  lemma Lithium(b: string)
    requires b == "lithium"
    ensures ParseProjects(Some(b)) == [ProjectRef("lithium", None)]
  {
    SlugCharsArePlain("lithium");
    OneRef(b, ProjectRef("lithium", None));
  }

  lemma Iris(c: string, slug: string, v: string)
    requires slug == "iris" && v == "1.8.0" && c == slug + ":" + v
    ensures ParseProjects(Some(c)) == [ProjectRef(slug, Some(v))]
  {
    SlugCharsArePlain(slug);
    SlugCharsArePlain(v);
    OneRef(c, ProjectRef(slug, Some(v)));
  }
}
