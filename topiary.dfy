/**
 * HLA allele handling of the topiary wrapper (`soil/wrappers/topiary/tasks.py`):
 * the per-predictor rewriting of allele names, the list of alleles the
 * predictor accepts (read from its `-listMHC` output), and the filtering
 * of the requested alleles against that list.  The predictor's listing
 * process is an injected function from a command line to its output text.
 */
module Topiary {
  import opened Wrappers
  import opened PyStr

  const NetMhc: string := "netmhc"
  const NetMhcPan: string := "netmhcpan"
  /** The default predictor of `filter_hla_alleles` and `run_topiary`, spelled as the source spells it. */
  const DefaultPredictor: string := "nethmhc"

  /** `x.replace('HLA-', '')`. */
  function StripHla(x: string): string {
    Replace(x, "HLA-", "")
  }

  // ---------------------------------------------------------------------
  // _parse_alleles

  /** `_parse_alleles`: strip every `HLA-`, then rewrite the names into the predictor's form. */
  function ParseAlleles(alleles: seq<string>, predictor: string): (r: seq<string>)
    ensures |r| == |alleles|
    ensures predictor == NetMhc || predictor == NetMhcPan ==> forall i :: 0 <= i < |r| ==> StartsWith(r[i], "HLA-")
  {
    var stripped := seq(|alleles|, i requires 0 <= i < |alleles| => StripHla(alleles[i]));
    if predictor == NetMhc then
      seq(|stripped|, i requires 0 <= i < |stripped| => "HLA-" + Replace(Replace(stripped[i], "*", ""), ":", ""))
    else if predictor == NetMhcPan then
      seq(|stripped|, i requires 0 <= i < |stripped| => "HLA-" + Replace(stripped[i], "*", ""))
    else stripped
  }

  /**
   * For netMHC every allele becomes `HLA-` followed by its stripped name
   * with all `*` and `:` deleted; the list keeps its length and order.
   */
  lemma ParseAllelesNetMhc(alleles: seq<string>)
    ensures |ParseAlleles(alleles, NetMhc)| == |alleles|
    ensures forall i :: 0 <= i < |alleles| ==>
      ParseAlleles(alleles, NetMhc)[i] == "HLA-" + Without(Without(StripHla(alleles[i]), '*'), ':')
    ensures forall i :: 0 <= i < |alleles| ==>
      '*' !in ParseAlleles(alleles, NetMhc)[i] && ':' !in ParseAlleles(alleles, NetMhc)[i]
  {
    var r := ParseAlleles(alleles, NetMhc);
    forall i | 0 <= i < |alleles|
      ensures r[i] == "HLA-" + Without(Without(StripHla(alleles[i]), '*'), ':')
      ensures '*' !in r[i] && ':' !in r[i]
    {
      var y := StripHla(alleles[i]);
      ReplaceCharByEmpty(y, '*');
      ReplaceCharByEmpty(Without(y, '*'), ':');
      var z := Without(Without(y, '*'), ':');
      WithoutCounts(y, '*');
      WithoutCounts(Without(y, '*'), ':');
      assert multiset(z)['*'] == multiset(Without(y, '*'))['*'] == 0;
    }
  }

  /**
   * For netMHCpan every allele becomes `HLA-` followed by its stripped name
   * with only the `*` deleted: every `:` is kept.
   */
  lemma ParseAllelesNetMhcPan(alleles: seq<string>)
    ensures |ParseAlleles(alleles, NetMhcPan)| == |alleles|
    ensures forall i :: 0 <= i < |alleles| ==>
      ParseAlleles(alleles, NetMhcPan)[i] == "HLA-" + Without(StripHla(alleles[i]), '*')
    ensures forall i :: 0 <= i < |alleles| ==>
      '*' !in ParseAlleles(alleles, NetMhcPan)[i] &&
      multiset(ParseAlleles(alleles, NetMhcPan)[i])[':'] == multiset(StripHla(alleles[i]))[':']
  {
    var r := ParseAlleles(alleles, NetMhcPan);
    forall i | 0 <= i < |alleles|
      ensures r[i] == "HLA-" + Without(StripHla(alleles[i]), '*')
      ensures '*' !in r[i] && multiset(r[i])[':'] == multiset(StripHla(alleles[i]))[':']
    {
      ReplaceCharByEmpty(StripHla(alleles[i]), '*');
      WithoutCounts(StripHla(alleles[i]), '*');
      assert multiset(r[i]) == multiset("HLA-") + multiset(Without(StripHla(alleles[i]), '*'));
    }
  }

  /** A name already in netMHC form (`HLA-` and no `*`, `:` or further `HLA-`) is left as it is. */
  lemma NetMhcFormIsFixed(y: string)
    requires '*' !in y && ':' !in y
    requires forall i: nat :: !OccursAt(y, "HLA-", i)
    ensures ParseAlleles(["HLA-" + y], NetMhc) == ["HLA-" + y]
  {
    ReplaceLeading("HLA-", y, "");
    ReplaceAbsent(y, "HLA-", "");
    assert StripHla("HLA-" + y) == y;
    ReplaceCharByEmpty(y, '*');
    ReplaceCharByEmpty(y, ':');
    WithoutAbsent(y, '*');
    WithoutAbsent(y, ':');
  }

  lemma {:induction false} WithoutAbsent(s: string, c: char)
    requires c !in s
    ensures Without(s, c) == s
    decreases |s|
  {
    if |s| > 0 {
      assert c !in s[1..];
      WithoutAbsent(s[1..], c);
      assert s == [s[0]] + s[1..];
    }
  }

  /** The first character of the pattern being absent, `replace` changes nothing. */
  lemma NoHlaInside(s: string)
    requires 'H' !in s
    ensures StripHla(s) == s
  {
    forall i: nat ensures !OccursAt(s, "HLA-", i) {
      if i + 4 <= |s| {
        assert s[i..i + 4][0] == s[i];
      }
    }
    ReplaceAbsent(s, "HLA-", "");
  }

  lemma NetMhcSingle(allele: string, body: string)
    requires Without(Without(StripHla(allele), '*'), ':') == body
    ensures ParseAlleles([allele], NetMhc) == ["HLA-" + body]
  {
    ParseAllelesNetMhc([allele]);
  }

  lemma NetMhcPanSingle(allele: string, body: string)
    requires Without(StripHla(allele), '*') == body
    ensures ParseAlleles([allele], NetMhcPan) == ["HLA-" + body]
  {
    ParseAllelesNetMhcPan([allele]);
  }

  lemma ExampleStripHla(allele: string, name: string)
    requires allele == "HLA-A*02:01" && name == "A*02:01"
    ensures StripHla(allele) == name && StripHla(name) == name
  {
    assert allele == "HLA-" + name;
    ReplaceLeading("HLA-", name, "");
    NoHlaInside(name);
  }

  /** Deleting a character from a concatenation deletes it from each part. */
  lemma {:induction false} WithoutAppend(a: string, b: string, c: char)
    ensures Without(a + b, c) == Without(a, c) + Without(b, c)
    decreases |a|
  {
    if |a| > 0 {
      assert (a + b)[1..] == a[1..] + b;
      WithoutAppend(a[1..], b, c);
    } else {
      assert a + b == b;
    }
  }

  /** Deleting `c` from `p + [c] + q` when neither part holds `c` gives `p + q`. */
  lemma WithoutOne(p: string, q: string, c: char)
    requires c !in p && c !in q
    ensures Without(p + [c] + q, c) == p + q
  {
    var single: string := [c];
    assert single[1..] == [];
    assert Without(single, c) == [];
    WithoutAppend(p, single, c);
    WithoutAbsent(p, c);
    assert Without(p + single, c) == p;
    WithoutAppend(p + single, q, c);
    WithoutAbsent(q, c);
  }

  lemma ExampleWithoutStar(s: string)
    requires s == "A*02:01"
    ensures Without(s, '*') == "A02:01"
  {
    assert s == "A" + ['*'] + "02:01";
    WithoutOne("A", "02:01", '*');
  }

  lemma ExampleWithout(s: string)
    requires s == "A*02:01"
    ensures Without(s, '*') == "A02:01"
    ensures Without(Without(s, '*'), ':') == "A0201"
  {
    ExampleWithoutStar(s);
    assert "A02:01" == "A02" + [':'] + "01";
    WithoutOne("A02", "01", ':');
  }

  /** `A*02:01` becomes `HLA-A0201` for netMHC. */
  lemma ParseExampleNetMhc(allele: string)
    requires allele == "A*02:01"
    ensures ParseAlleles([allele], NetMhc) == ["HLA-A0201"]
  {
    NoHlaInside(allele);
    ExampleWithout(allele);
    NetMhcSingle(allele, "A0201");
    assert "HLA-" + "A0201" == "HLA-A0201";
  }

  /** The netMHCpan form of `HLA-` + a name without `H`: the prefix is not doubled. */
  lemma NetMhcPanPrefixed(name: string, body: string)
    requires 'H' !in name && Without(name, '*') == body
    ensures ParseAlleles(["HLA-" + name], NetMhcPan) == ["HLA-" + body]
  {
    ReplaceLeading("HLA-", name, "");
    NoHlaInside(name);
    assert StripHla("HLA-" + name) == name;
    NetMhcPanSingle("HLA-" + name, body);
  }

  /** `A*02:01` becomes `HLA-A02:01` for netMHCpan: the `:` stays. */
  lemma ParseExampleNetMhcPan(allele: string)
    requires allele == "A*02:01"
    ensures ParseAlleles([allele], NetMhcPan) == ["HLA-A02:01"]
  {
    NoHlaInside(allele);
    ExampleWithoutStar(allele);
    NetMhcPanSingle(allele, "A02:01");
    assert "HLA-" + "A02:01" == "HLA-A02:01";
  }

  // ---------------------------------------------------------------------
  // _get_valid_alleles

  /** The listing command `_get_valid_alleles` runs, for the two predictors it knows. */
  function ListCommand(predictor: string): Option<seq<string>> {
    if predictor == NetMhc then Some(["netMHC", "-listMHC"])
    else if predictor == NetMhcPan then Some(["netMHCpan", "-listMHC"])
    else None
  }

  /** The stripped lines that start with `HLA`, in order. */
  function HlaLines(lines: seq<string>): (r: seq<string>)
    ensures |r| <= |lines|
    decreases |lines|
  {
    if |lines| == 0 then []
    else
      var line := Strip(lines[|lines| - 1]);
      HlaLines(lines[..|lines| - 1]) + (if StartsWith(line, "HLA") then [line] else [])
  }

  /** The alleles the predictor accepts; `None` when the predictor is not one with a listing. */
  function ValidAlleles(predictor: string, run: seq<string> -> string): Option<seq<string>> {
    match ListCommand(predictor)
    case None => None
    case Some(cmd) => Some(HlaLines(Split(run(cmd), '\n')))
  }

  /** The listing of a text read in two parts is the listing of the first part followed by that of the second. */
  lemma {:induction false} HlaLinesAppend(a: seq<string>, b: seq<string>)
    ensures HlaLines(a + b) == HlaLines(a) + HlaLines(b)
    decreases |b|
  {
    if |b| > 0 {
      var b' := b[..|b| - 1];
      assert (a + b)[..|a + b| - 1] == a + b';
      HlaLinesAppend(a, b');
    } else {
      assert a + b == a;
    }
  }

  /**
   * Every valid allele is the stripped text of an output line, starts with
   * `HLA` and has no surrounding whitespace, and every line whose stripped
   * text starts with `HLA` is among them.
   */
  lemma HlaLinesMembers(lines: seq<string>)
    ensures forall x :: x in HlaLines(lines) ==> StartsWith(x, "HLA") && Strip(x) == x
    ensures forall x :: x in HlaLines(lines) ==> exists j :: 0 <= j < |lines| && x == Strip(lines[j])
    ensures forall l :: l in lines && StartsWith(Strip(l), "HLA") ==> Strip(l) in HlaLines(lines)
  {
    HlaLinesSound(lines);
    HlaLinesComplete(lines);
  }

  /** Every valid allele is the stripped text of an output line, and that text starts with `HLA`. */
  lemma HlaLinesSound(lines: seq<string>)
    ensures forall x :: x in HlaLines(lines) ==> StartsWith(x, "HLA") && Strip(x) == x
    ensures forall x :: x in HlaLines(lines) ==> exists j :: 0 <= j < |lines| && x == Strip(lines[j])
  {
    HlaLinesShape(lines);
    HlaLinesFromOutput(lines);
  }

  lemma {:induction false} HlaLinesShape(lines: seq<string>)
    ensures forall x :: x in HlaLines(lines) ==> StartsWith(x, "HLA") && Strip(x) == x
    decreases |lines|
  {
    if |lines| > 0 {
      var init := lines[..|lines| - 1];
      var line := Strip(lines[|lines| - 1]);
      HlaLinesShape(init);
      StripIdempotent(lines[|lines| - 1]);
      assert HlaLines(lines) == HlaLines(init) + (if StartsWith(line, "HLA") then [line] else []);
    }
  }

  lemma {:induction false} HlaLinesFromOutput(lines: seq<string>)
    ensures forall x :: x in HlaLines(lines) ==> exists j :: 0 <= j < |lines| && x == Strip(lines[j])
    decreases |lines|
  {
    if |lines| > 0 {
      var n := |lines| - 1;
      var init := lines[..n];
      HlaLinesFromOutput(init);
      var tail := if StartsWith(Strip(lines[n]), "HLA") then [Strip(lines[n])] else [];
      assert HlaLines(lines) == HlaLines(init) + tail;
      forall x | x in HlaLines(lines) ensures exists j :: 0 <= j < |lines| && x == Strip(lines[j]) {
        if x in HlaLines(init) {
          var j :| 0 <= j < |init| && x == Strip(init[j]);
          assert lines[j] == init[j];
        } else {
          assert x == Strip(lines[n]);
        }
      }
    }
  }

  lemma {:induction false} HlaLinesComplete(lines: seq<string>)
    ensures forall l :: l in lines && StartsWith(Strip(l), "HLA") ==> Strip(l) in HlaLines(lines)
    decreases |lines|
  {
    if |lines| > 0 {
      var init := lines[..|lines| - 1];
      var last := lines[|lines| - 1];
      var line := Strip(last);
      HlaLinesComplete(init);
      var tail := if StartsWith(line, "HLA") then [line] else [];
      assert HlaLines(lines) == HlaLines(init) + tail;
      assert lines == init + [last];
      forall l | l in lines && StartsWith(Strip(l), "HLA") ensures Strip(l) in HlaLines(lines) {
        if l != last {
          assert l in init;
        }
      }
    }
  }

  lemma ValidAllelesOtherPredictor(predictor: string, run: seq<string> -> string)
    requires predictor != NetMhc && predictor != NetMhcPan
    ensures ValidAlleles(predictor, run) == None
  {
  }

  /** `_get_valid_alleles` without the PATH set-up: the `HLA` lines of the predictor's listing (tasks.py:118-139). */
  method GetValidAlleles(predictor: string, run: seq<string> -> string) returns (validAlleles: Option<seq<string>>)
    ensures validAlleles == ValidAlleles(predictor, run)
  {
    if predictor == NetMhc || predictor == NetMhcPan {
      var rawOut: string;
      if predictor == NetMhc {
        rawOut := run(["netMHC", "-listMHC"]);
      } else {
        rawOut := run(["netMHCpan", "-listMHC"]);
      }
      var lines := Split(rawOut, '\n');
      var valid: seq<string> := [];
      for i := 0 to |lines|
        invariant valid == HlaLines(lines[..i])
      {
        assert lines[..i + 1][..i] == lines[..i];
        var line := Strip(lines[i]);
        assert HlaLines(lines[..i + 1]) == valid + (if StartsWith(line, "HLA") then [line] else []);
        if StartsWith(line, "HLA") {
          valid := valid + [line];
        }
      }
      assert lines[..|lines|] == lines;
      validAlleles := Some(valid);
    } else {
      validAlleles := None;
    }
  }

  // ---------------------------------------------------------------------
  // filter_hla_alleles

  /** The alleles that are in `valid`, in order, duplicates kept. */
  function KeepValid(alleles: seq<string>, valid: seq<string>): (r: seq<string>)
    ensures |r| <= |alleles|
    ensures forall i :: 0 <= i < |r| ==> r[i] in valid
    decreases |alleles|
  {
    if |alleles| == 0 then []
    else
      var a := alleles[|alleles| - 1];
      KeepValid(alleles[..|alleles| - 1], valid) + (if a in valid then [a] else [])
  }

  /** `r` is `xs` with some elements left out, the rest in their order. */
  predicate IsSubsequence(r: seq<string>, xs: seq<string>)
    decreases |xs|
  {
    if |r| == 0 then true
    else if |xs| == 0 then false
    else if r[|r| - 1] == xs[|xs| - 1] then IsSubsequence(r[..|r| - 1], xs[..|xs| - 1])
    else IsSubsequence(r, xs[..|xs| - 1])
  }

  /** Filtering keeps order: the result is a subsequence of the input. */
  lemma {:induction false} KeepValidOrder(alleles: seq<string>, valid: seq<string>)
    ensures IsSubsequence(KeepValid(alleles, valid), alleles)
    decreases |alleles|
  {
    if |alleles| > 0 {
      var init := alleles[..|alleles| - 1];
      var a := alleles[|alleles| - 1];
      KeepValidOrder(init, valid);
      var r := KeepValid(alleles, valid);
      var k := KeepValid(init, valid);
      if a in valid {
        assert r == k + [a];
        assert r[..|r| - 1] == k;
      } else {
        assert r == k;
        SubsequenceOfLonger(k, init, a);
        assert init + [a] == alleles;
      }
    }
  }

  /**
   * Filtering keeps duplicates: each allele occurs in the result as often
   * as in the input if it is valid, and not at all otherwise.
   */
  lemma {:induction false} KeepValidCounts(alleles: seq<string>, valid: seq<string>)
    ensures forall a :: multiset(KeepValid(alleles, valid))[a] == if a in valid then multiset(alleles)[a] else 0
    decreases |alleles|
  {
    if |alleles| > 0 {
      var init := alleles[..|alleles| - 1];
      var a := alleles[|alleles| - 1];
      KeepValidCounts(init, valid);
      assert alleles == init + [a];
      assert multiset(alleles) == multiset(init) + multiset{a};
    }
  }

  lemma {:induction false} SubsequenceOfLonger(r: seq<string>, xs: seq<string>, x: string)
    requires IsSubsequence(r, xs)
    ensures IsSubsequence(r, xs + [x])
    decreases |xs|, 1
  {
    var ys := xs + [x];
    assert ys[..|ys| - 1] == xs;
    if |r| > 0 && r[|r| - 1] == x {
      SubsequenceDropLast(r, xs);
    }
  }

  lemma {:induction false} SubsequenceDropLast(r: seq<string>, xs: seq<string>)
    requires |r| > 0 && IsSubsequence(r, xs)
    ensures IsSubsequence(r[..|r| - 1], xs)
    decreases |xs|, 0
  {
    var r' := r[..|r| - 1];
    if |xs| > 0 {
      var xs' := xs[..|xs| - 1];
      assert xs' + [xs[|xs| - 1]] == xs;
      if r[|r| - 1] != xs[|xs| - 1] {
        SubsequenceDropLast(r, xs');
      }
      SubsequenceOfLonger(r', xs', xs[|xs| - 1]);
    }
  }

  /** `filter_hla_alleles` as a value. */
  function FilteredAlleles(rawAlleles: seq<string>, predictor: string, run: seq<string> -> string): seq<string> {
    var parsed := ParseAlleles(rawAlleles, predictor);
    match ValidAlleles(predictor, run)
    case None => parsed
    case Some(valid) => KeepValid(parsed, valid)
  }

  /**
   * Any predictor other than netMHC and netMHCpan, the default `nethmhc`
   * included, only strips `HLA-` and filters nothing.
   */
  lemma OtherPredictorNoFilter(rawAlleles: seq<string>, predictor: string, run: seq<string> -> string)
    requires predictor != NetMhc && predictor != NetMhcPan
    ensures FilteredAlleles(rawAlleles, predictor, run) == seq(|rawAlleles|, i requires 0 <= i < |rawAlleles| => StripHla(rawAlleles[i]))
  {
  }

  /** Called with its default predictor, `filter_hla_alleles` returns the alleles with `HLA-` removed. */
  lemma DefaultPredictorNoFilter(rawAlleles: seq<string>, run: seq<string> -> string)
    ensures FilteredAlleles(rawAlleles, DefaultPredictor, run) == seq(|rawAlleles|, i requires 0 <= i < |rawAlleles| => StripHla(rawAlleles[i]))
  {
    OtherPredictorNoFilter(rawAlleles, DefaultPredictor, run);
  }

  /** `filter_hla_alleles`: keeps the parsed alleles the predictor lists (tasks.py:12-27). */
  method FilterHlaAlleles(rawHlaAlleles: seq<string>, predictor: string, run: seq<string> -> string)
    returns (hlaAlleles: seq<string>)
    ensures hlaAlleles == FilteredAlleles(rawHlaAlleles, predictor, run)
  {
    var validAlleles := GetValidAlleles(predictor, run);
    var parsed := ParseAlleles(rawHlaAlleles, predictor);
    if validAlleles.None? {
      hlaAlleles := parsed;
    } else {
      hlaAlleles := [];
      for i := 0 to |parsed|
        invariant hlaAlleles == KeepValid(parsed[..i], validAlleles.value)
      {
        assert parsed[..i + 1][..i] == parsed[..i];
        if parsed[i] in validAlleles.value {
          hlaAlleles := hlaAlleles + [parsed[i]];
        }
      }
      assert parsed[..|parsed|] == parsed;
    }
  }
}
