/** `classify_files`: assigning the uploaded files to the DAD, DMC and TA
    slots by a case-insensitive substring test on their names. Files are
    identified by their position in the upload list. */
module Classifier {
  import opened Wrappers
  import opened Text

  datatype Category = Dad | Dmc | Ta

  /** The slot a file name goes to: its upper-cased name is tested for "DAD",
      then "DMC", then "TA"; the first token found decides. */
  function CategoryOf(name: string): Option<Category> {
    var u := Upper(name);
    if Contains(u, "DAD") then Some(Dad)
    else if Contains(u, "DMC") then Some(Dmc)
    else if Contains(u, "TA") then Some(Ta)
    else None
  }

  /** The position of the last file whose name goes to `c`: a later file
      overwrites an earlier one's slot. */
  function LastOf(names: seq<string>, c: Category): (r: Option<nat>)
    ensures r.Some? ==> r.value < |names| && CategoryOf(names[r.value]) == Some(c)
    ensures r.Some? ==> forall j :: r.value < j < |names| ==> CategoryOf(names[j]) != Some(c)
    ensures r.None? ==> forall j :: 0 <= j < |names| ==> CategoryOf(names[j]) != Some(c)
  {
    if names == [] then None
    else if CategoryOf(names[|names| - 1]) == Some(c) then Some(|names| - 1)
    else LastOf(names[..|names| - 1], c)
  }

  /** The loop of `classify_files`: each file is tested in upload order and
      overwrites the slot it matches; a file matching no token is ignored. */
  method ClassifyFiles(names: seq<string>) returns (dad: Option<nat>, dmc: Option<nat>, ta: Option<nat>)
    ensures dad == LastOf(names, Dad)
    ensures dmc == LastOf(names, Dmc)
    ensures ta == LastOf(names, Ta)
  {
    dad, dmc, ta := None, None, None;
    var i := 0;
    while i < |names|
      invariant 0 <= i <= |names|
      invariant dad == LastOf(names[..i], Dad)
      invariant dmc == LastOf(names[..i], Dmc)
      invariant ta == LastOf(names[..i], Ta)
    {
      assert names[..i + 1][..i] == names[..i];
      var upper := Upper(names[i]);
      if Contains(upper, "DAD") {
        dad := Some(i);
      } else if Contains(upper, "DMC") {
        dmc := Some(i);
      } else if Contains(upper, "TA") {
        ta := Some(i);
      }
      i := i + 1;
    }
    assert names[..i] == names;
  }

  /** The test ignores case: a name and its upper-cased form go to the same
      slot. */
  lemma CategoryIgnoresCase(name: string)
    ensures CategoryOf(Upper(name)) == CategoryOf(name)
  {
    UpperIdempotent(name);
  }

  /** A name holding several tokens goes only to the first of DAD, DMC, TA. */
  lemma CategoryPriority(name: string)
    ensures Contains(Upper(name), "DAD") ==> CategoryOf(name) == Some(Dad)
    ensures Contains(Upper(name), "DMC") && !Contains(Upper(name), "DAD") ==> CategoryOf(name) == Some(Dmc)
    ensures CategoryOf(name) == Some(Ta) ==>
      Contains(Upper(name), "TA") && !Contains(Upper(name), "DAD") && !Contains(Upper(name), "DMC")
  {
  }

  /** When exactly one file matches a slot, that file fills it, whatever the
      upload order. */
  lemma UniqueMatchFills(names: seq<string>, c: Category, i: nat)
    requires i < |names| && CategoryOf(names[i]) == Some(c)
    requires forall j :: 0 <= j < |names| && j != i ==> CategoryOf(names[j]) != Some(c)
    ensures LastOf(names, c) == Some(i)
  {
  }

  /** The classification depends on the upload order: with two DAD files,
      swapping them changes which one fills the DAD slot. */
  lemma {:induction false} OrderMatters()
    ensures var a := ["a_dad.xlsx", "b_dad.xlsx"];
            var b := [a[1], a[0]];
            LastOf(a, Dad).Some? && LastOf(b, Dad).Some? &&
            a[LastOf(a, Dad).value] != b[LastOf(b, Dad).value]
  {
    var a := ["a_dad.xlsx", "b_dad.xlsx"];
    ContainsAt(Upper(a[0]), "DAD", 2);
    ContainsAt(Upper(a[1]), "DAD", 2);
    assert CategoryOf(a[1]) == Some(Dad);
    assert CategoryOf(a[0]) == Some(Dad);
  }

  /** Three uploads, one per token, fill the three slots with their own
      positions. */
  lemma ThreeFilesInOrder(a: string, b: string, c: string)
    requires CategoryOf(a) == Some(Dad) && CategoryOf(b) == Some(Dmc) && CategoryOf(c) == Some(Ta)
    ensures LastOf([a, b, c], Dad) == Some(0)
    ensures LastOf([a, b, c], Dmc) == Some(1)
    ensures LastOf([a, b, c], Ta) == Some(2)
  {
    assert [a, b, c][..2] == [a, b];
    assert [a, b][..1] == [a];
    assert LastOf([a, b], Dad) == LastOf([a], Dad) == Some(0);
  }

  /** The upload names lego_DAD_0101.xlsx, lego_DMC_0101.xlsx and
      lego_TA_0101.xlsx classify by their tokens. */
  lemma ExampleUploads()
    ensures CategoryOf("lego_DAD_0101.xlsx") == Some(Dad)
    ensures CategoryOf("lego_DMC_0101.xlsx") == Some(Dmc)
    ensures CategoryOf("lego_TA_0101.xlsx") == Some(Ta)
  {
    DadFileName();
    DmcFileName();
    TaFileName();
  }

  lemma DadFileName()
    ensures CategoryOf("lego_DAD_0101.xlsx") == Some(Dad)
  {
    var u := Upper("lego_DAD_0101.xlsx");
    assert u[5..8] == "DAD";
    ContainsAt(u, "DAD", 5);
  }

  lemma DmcFileName()
    ensures CategoryOf("lego_DMC_0101.xlsx") == Some(Dmc)
  {
    var u := Upper("lego_DMC_0101.xlsx");
    assert u[5..8] == "DMC";
    ContainsAt(u, "DMC", 5);
    UpperLacks("lego_DMC_0101.xlsx", 'A');
    AbsentChar(u, "DAD", 'A');
  }

  lemma TaFileName()
    ensures CategoryOf("lego_TA_0101.xlsx") == Some(Ta)
  {
    var u := Upper("lego_TA_0101.xlsx");
    assert u[5..7] == "TA";
    ContainsAt(u, "TA", 5);
    UpperLacks("lego_TA_0101.xlsx", 'D');
    AbsentChar(u, "DAD", 'D');
    AbsentChar(u, "DMC", 'D');
  }
}
