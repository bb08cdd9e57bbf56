/** A document that puts the trusted-list parser out of step (`crates/eidas-trust/src/parse.rs`). */
module TslOutOfStep {
  import opened Wrappers
  import opened TslTree
  import opened TslLevels

  /** A leaf with an element of its own name inside: the text after that element is lost. */
  const NESTED_TERRITORY :=
    Element("SchemeInformation", [],
      Element("SchemeTerritory", [],
        Element("SchemeTerritory", [], Chars(Some("B"), Nil), Chars(Some("A"), Nil)), Nil), Nil)

  lemma OutOfStepMisreads(k: Codecs)
    ensures !InStep(Document, None, NESTED_TERRITORY)
    ensures ListOf(k, NESTED_TERRITORY) == Some(NO_LIST.(territory := Some("BA")))
    ensures ParseEvents(k, Events(NESTED_TERRITORY)) == Some(NO_LIST.(territory := Some("B")))
  {
    var inner := Element("SchemeTerritory", [], Chars(Some("B"), Nil), Chars(Some("A"), Nil));
    var outer := Element("SchemeTerritory", [], inner, Nil);
    TerritoryText(inner);
    assert !InStep(Leaf, Some("SchemeTerritory"), inner);
    assert !InStep(Scheme, Some("SchemeInformation"), outer);
    var l, out := SchemeLevel(k), NO_LIST.(territory := Some("BA"));
    assert l.visit(NO_LIST, "SchemeTerritory", inner) == SchemeVisit(k, NO_LIST, "SchemeTerritory", inner) == Some(out);
    assert !Enters(l, NO_LIST, "SchemeTerritory");
    assert Fold(l, out, Nil) == Some(out);
    assert Fold(l, NO_LIST, outer) == Some(out);
    assert Fold(DocumentLevel(k), out, Nil) == Some(out);
    assert DocumentLevel(k).visit(NO_LIST, "SchemeInformation", outer)
        == DocumentVisit(k, NO_LIST, "SchemeInformation", outer);
    OutOfStepEvents(k);
  }

  lemma TerritoryText(inner: Forest)
    requires inner == Element("SchemeTerritory", [], Chars(Some("B"), Nil), Chars(Some("A"), Nil))
    ensures TextOf(inner) == Some("BA")
  {
    assert TextOf(Chars(Some("B"), Nil)) == Some("B" + "");
    assert TextOf(Chars(Some("A"), Nil)) == Some("A" + "");
    assert ("B" + "") + ("A" + "") == "BA";
  }

  lemma OutOfStepText(s6: seq<Event>)
    ensures ReadText(([Start("SchemeTerritory", []), Text(Some("B")), End("SchemeTerritory")] + s6), "SchemeTerritory")
         == Some(("B", s6))
  {
    var s3 := [End("SchemeTerritory")] + s6;
    var s2 := [Text(Some("B"))] + s3;
    var s1 := [Start("SchemeTerritory", [])] + s2;
    assert [Start("SchemeTerritory", []), Text(Some("B")), End("SchemeTerritory")] + s6 == s1;
    assert s3[1..] == s6 && s2[1..] == s3 && s1[1..] == s2;
    assert ReadText(s3, "SchemeTerritory") == Some(("", s6));
    assert "B" + "" == "B";
  }

  lemma OutOfStepScheme(k: Codecs, s: seq<Event>)
    requires s == [Text(Some("A")), End("SchemeTerritory"), End("SchemeInformation")]
    ensures var out := NO_LIST.(territory := Some("B"));
      Fields(SchemeLevel(k), Some("SchemeInformation"), out, s) == Some((out, []))
  {
    hide SchemeField;
    var l, closing, out := SchemeLevel(k), Some("SchemeInformation"), NO_LIST.(territory := Some("B"));
    assert s[1..][1..] == [End("SchemeInformation")] && s[1..][1..][1..] == [];
    assert Fields(l, closing, out, s[1..][1..]) == Some((out, []));
    assert Fields(l, closing, out, s[1..]) == Some((out, []));
  }

  lemma OutOfStepEvents(k: Codecs)
    ensures ParseEvents(k, Events(NESTED_TERRITORY)) == Some(NO_LIST.(territory := Some("B")))
  {
    hide ReadText, Fold, InStep;
    var out := NO_LIST.(territory := Some("B"));
    var tail := [Text(Some("A")), End("SchemeTerritory"), End("SchemeInformation")];
    var inner := [Start("SchemeTerritory", []), Text(Some("B")), End("SchemeTerritory")] + tail;
    var s0 := [Start("SchemeTerritory", [])] + inner;
    var s := [Start("SchemeInformation", [])] + s0;
    assert Events(NESTED_TERRITORY) == s;
    assert s[1..] == s0 && s0[1..] == inner;
    OutOfStepText(tail);
    OutOfStepScheme(k, tail);
    var l, d, closing := SchemeLevel(k), DocumentLevel(k), Some("SchemeInformation");
    assert l.field(NO_LIST, "SchemeTerritory", inner) == SchemeField(k, NO_LIST, "SchemeTerritory", inner)
        == Some((out, tail));
    assert Fields(l, closing, NO_LIST, s0) == Some((out, []));
    assert d.field(NO_LIST, "SchemeInformation", s0) == DocumentField(k, NO_LIST, "SchemeInformation", s0);
    assert Fields(d, None, out, []) == Some((out, []));
  }
}
