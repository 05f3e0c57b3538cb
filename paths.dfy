/** The two `pathlib` properties read_pickles uses, on '/'-separated paths as
    `Path.walk` produces them (no trailing separator), following Python 3.12. */
module Paths {
  import opened PyValues

  /** `Path(p).name`: the final component, everything after the last '/'.
      The current directory "." has no components, so its name is empty. */
  function Name(p: string): (r: string)
    ensures '/' !in r
    ensures |r| <= |p| && r == p[|p| - |r|..]
    ensures !IsCurrentDir(p) && |r| < |p| ==> p[|p| - |r| - 1] == '/'
  {
    p[NameStart(p)..]
  }

  /** `p` is ".", written without a string literal. */
  predicate IsCurrentDir(p: string)
  {
    |p| == 1 && p[0] == '.'
  }

  /** Where the name of `p` starts: after the last '/', or at the end for ".". */
  function NameStart(p: string): (r: nat)
    ensures r <= |p|
    ensures forall j :: r <= j < |p| ==> p[j] != '/'
    ensures IsCurrentDir(p) ==> r == |p|
    ensures !IsCurrentDir(p) && 0 < r ==> p[r - 1] == '/'
  {
    if IsCurrentDir(p) then |p| else RFind(p, '/') + 1
  }

  /** The name of `dir / name` is `name`. */
  lemma NameOfJoin(dir: string, name: string)
    requires '/' !in name
    ensures Name(dir + "/" + name) == name
  {
    var p := dir + "/" + name;
    forall j | |dir| < j < |p| ensures p[j] != '/' {
      assert p[j] == name[j - |dir| - 1];
    }
    RFindIsLast(p, '/', |dir|);
    assert p[|dir| + 1..] == name;
  }

  /** `Path(p).stem`: the name without its suffix. */
  function Stem(p: string): (r: string)
    ensures '/' !in r
    ensures r <= Name(p)
    ensures '.' !in Name(p) ==> r == Name(p)
  {
    StripSuffix(Name(p))
  }

  /** A name without its suffix. The suffix starts at the last '.' of the
      name, provided that '.' is neither the first nor the last character. */
  function StripSuffix(name: string): (r: string)
    ensures r <= name
    ensures r != name ==> 0 < |r| < |name| - 1 && name[|r|] == '.'
    ensures r != name ==> forall j :: |r| < j < |name| ==> name[j] != '.'
    ensures r == name ==> forall j :: 0 < j < |name| - 1 && name[j] == '.' ==> name[|name| - 1] == '.'
  {
    var i := RFind(name, '.');
    if 0 < i < |name| - 1 then name[..i] else name
  }

  /** A directory whose name has a dot inside loses what follows the last
      dot: the records under "pickle_cache/v2.0" are tagged "v2". */
  lemma StemDropsSuffix()
    ensures Name("pickle_cache/v2.0") == "v2.0"
    ensures Stem("pickle_cache/v2.0") == "v2"
  {
    NameOfJoin("pickle_cache", "v2.0");
    assert "pickle_cache" + "/" + "v2.0" == "pickle_cache/v2.0";
    RFindIsLast("v2.0", '.', 2);
  }

  /** The stem is shorter than the name exactly when the name has a '.'
      after its first character and does not end with '.'. */
  lemma StemIsName(p: string)
    ensures Stem(p) != Name(p) <==>
      (exists j :: 0 < j < |Name(p)| - 1 && Name(p)[j] == '.') && Name(p)[|Name(p)| - 1] != '.'
  {
    var name := Name(p);
    if Stem(p) != name {
      assert name[|Stem(p)|] == '.';
    }
  }

  /** A query with a dot inside is cut at that dot: the records under
      "pickle_cache/deep learning vs. ML" are tagged "deep learning vs". */
  lemma StemCutsQuery()
    ensures Stem("pickle_cache/deep learning vs. ML") == "deep learning vs"
  {
    QueryName();
    QueryStripped();
  }

  lemma QueryName()
    ensures Name("pickle_cache/deep learning vs. ML") == "deep learning vs. ML"
  {
    var name := "deep learning vs. ML";
    assert "pickle_cache" + "/" + name == "pickle_cache/deep learning vs. ML";
    NameOfJoin("pickle_cache", name);
  }

  lemma QueryStripped()
    ensures StripSuffix("deep learning vs. ML") == "deep learning vs"
  {
    var query, rest := "deep learning vs", ". ML";
    var name := query + rest;
    assert name == "deep learning vs. ML";
    forall j | |query| < j < |name| ensures name[j] != '.' {
      assert name[j] == rest[j - |query|];
    }
    RFindIsLast(name, '.', |query|);
    assert name[..|query|] == query;
  }

  /** The records directly under a walk rooted at "." are tagged with the
      empty string. */
  lemma StemOfCurrentDir()
    ensures Name(".") == "" && Stem(".") == ""
  {
    assert IsCurrentDir(".");
  }
}
