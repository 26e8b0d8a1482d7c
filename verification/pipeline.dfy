/**
 The pure part of one run of the tool: parse the pattern, resolve it in the
 parsed document, render the value found. Reading the input, TOML parsing
 and printing stay outside.
 */
module Pipeline {
  import opened Wrappers
  import opened Text
  import opened Values
  import opened Path
  import opened FmtBash
  import opened Decimal

  /** The value the pattern resolves to can be rendered without a failing
      unescape. */
  predicate ResolvedRenderable(x: Externals, doc: Value, pattern: string)
  {
    var r := GetPath(doc, ParsePattern(pattern).path);
    r.Success? ==> Renderable(x, r.value)
  }

  /** The text printed for `pattern`, or the error reported. A failed
      lookup names exactly the pattern the user typed. */
  function Export(x: Externals, doc: Value, pattern: string): (r: Result<string, Error>)
    requires ResolvedRenderable(x, doc, pattern)
    ensures r.Failure? ==> r.error == NoSuchKey(pattern)
                           && Message(r.error) == "No such key: " + pattern
  {
    match GetPath(doc, ParsePattern(pattern).path)
    case Failure(e) => Failure(e)
    case Success(v) => Success(Render(x, v))
  }

  /** Resolving `a.b.c` where `a.b` is an empty table fails, and the error
      names `a.b.c`, although only the last segment was missing. */
  lemma MissingLastSegment(x: Externals)
    ensures Export(x, Tbl([("a", Tbl([("b", Tbl([]))]))]), "a.b.c") == Failure(NoSuchKey("a.b.c"))
  {
    var doc := Tbl([("a", Tbl([("b", Tbl([]))]))]);
    var spec := ParsePattern("a.b.c");
    ParsePatternJoin(["a", "b", "c"]);
    assert Join(".", ["a", "b", "c"]) == "a.b.c";
    var vs := [doc, Tbl([("b", Tbl([]))]), Tbl([])];
    assert ["a", "b", "c"][..2] == ["a", "b"];
    assert IsChain(doc, ["a", "b"], vs);
    GetPathStuck(doc, ["a", "b", "c"], 2, vs);
  }

  /** An array renders its scalars and drops the nested table. */
  lemma ArraySkipsNestedTable(x: Externals)
    ensures Render(x, Arr([Int(1), Tbl([]), Int(2)])) == "1 2"
  {
    RenderArraySkipsComposite(x, [Int(1)], Tbl([]), [Int(2)]);
    assert [Int(1)] + [Tbl([])] + [Int(2)] == [Int(1), Tbl([]), Int(2)];
    assert [Int(1)] + [Int(2)] == [Int(1), Int(2)];
    AtomTextsAppend(x, [Int(1)], [Int(2)]);
    AtomTextsSingle(x, Int(1));
    AtomTextsSingle(x, Int(2));
    assert IntText(1) == "1" && IntText(2) == "2";
    assert AtomTexts(x, [Int(1), Int(2)]) == ["1", "2"];
    JoinCons(" ", "1", ["2"]);
  }

  /** A table renders its scalar entry and drops the entry holding an
      array. */
  lemma TableSkipsNestedArray(x: Externals)
    requires x.unescape("a") == Some("a")
    ensures Render(x, Tbl([("a", Int(1)), ("b", Arr([Int(9)]))])) == "[a]=1"
  {
    RenderTableSkipsComposite(x, [("a", Int(1))], ("b", Arr([Int(9)])), []);
    assert [("a", Int(1))] + [("b", Arr([Int(9)]))] + [] == [("a", Int(1)), ("b", Arr([Int(9)]))];
    assert [("a", Int(1))] + [] == [("a", Int(1))];
    EntryTextsSingle(x, ("a", Int(1)));
    assert IntText(1) == "1";
    assert EntryText(x, ("a", Int(1))) == "[a]=1";
  }

  /** The root integer 42 prints as `42` and a line break; as the sole
      element of an array it prints as `42` alone. */
  lemma RootIntegerFortyTwo(x: Externals)
    ensures Render(x, Int(42)) == "42\n"
    ensures Render(x, Arr([Int(42)])) == "42"
  {
    IntegerNewlineAsymmetry(x, Int(42), "");
    assert IntText(42) == "42";
  }
}
