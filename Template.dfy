/**
 * Filling the report template: every paragraph is a list of runs, and each
 * placeholder found in the paragraph's text is replaced run by run, in the
 * order of the replacement table.
 */
module Template {
  import opened Text
  import opened Report

  /** A paragraph as the document library holds it: the texts of its runs. */
  type Paragraph = seq<string>

  /** Placeholder and value pairs, in the order they are applied. */
  type Replacements = seq<(string, string)>

  /** `p.text`: the runs' texts joined together. */
  function FullText(p: Paragraph): (t: string)
    ensures forall j :: 0 <= j < |p| ==> |p[j]| <= |t|
  {
    if p == [] then "" else FullText(p[..|p| - 1]) + p[|p| - 1]
  }

  predicate ValidKeys(repl: Replacements)
  {
    forall i :: 0 <= i < |repl| ==> |repl[i].0| > 0
  }

  /**
   * One placeholder on one paragraph: when the paragraph's text contains it,
   * each run has it replaced; otherwise the paragraph is left alone.
   */
  function ApplyKey(p: Paragraph, key: string, val: string): (r: Paragraph)
    requires |key| > 0
    ensures |r| == |p|
  {
    if Contains(FullText(p), key) then seq(|p|, j requires 0 <= j < |p| => ReplaceAll(p[j], key, val))
    else p
  }

  /** The inner loops on one paragraph: every placeholder in table order. */
  function FillParagraph(p: Paragraph, repl: Replacements): (r: Paragraph)
    requires ValidKeys(repl)
    ensures |r| == |p|
    decreases |repl|
  {
    if repl == [] then p
    else
      var n := |repl| - 1;
      ApplyKey(FillParagraph(p, repl[..n]), repl[n].0, repl[n].1)
  }

  /** Every paragraph of the document filled. */
  function FillDocument(doc: seq<Paragraph>, repl: Replacements): (r: seq<Paragraph>)
    requires ValidKeys(repl)
    ensures |r| == |doc|
    ensures forall i :: 0 <= i < |doc| ==> |r[i]| == |doc[i]|
  {
    seq(|doc|, i requires 0 <= i < |doc| => FillParagraph(doc[i], repl))
  }

  /**
   * The template fill of `save_pdf`, in place on the document's paragraphs:
   * for each paragraph, for each placeholder found in its text, rewrite
   * every run.
   */
  method FillTemplate(doc: array<Paragraph>, repl: Replacements)
    requires ValidKeys(repl)
    modifies doc
    ensures doc[..] == FillDocument(old(doc[..]), repl)
  {
    for i := 0 to doc.Length
      invariant forall k :: 0 <= k < i ==> doc[k] == FillParagraph(old(doc[k]), repl)
      invariant forall k :: i <= k < doc.Length ==> doc[k] == old(doc[k])
    {
      ghost var outer := doc[..];
      for r := 0 to |repl|
        invariant doc[i] == FillParagraph(outer[i], repl[..r])
        invariant forall k :: 0 <= k < doc.Length && k != i ==> doc[k] == outer[k]
      {
        var key := repl[r].0;
        var val := repl[r].1;
        var before := doc[i];
        if Contains(FullText(doc[i]), key) {
          ghost var inner := doc[..];
          for j := 0 to |before|
            invariant |doc[i]| == |before|
            invariant forall m :: 0 <= m < j ==> doc[i][m] == ReplaceAll(before[m], key, val)
            invariant forall m :: j <= m < |before| ==> doc[i][m] == before[m]
            invariant forall k :: 0 <= k < doc.Length && k != i ==> doc[k] == inner[k]
          {
            doc[i] := doc[i][j := ReplaceAll(doc[i][j], key, val)];
          }
        }
        assert doc[i] == ApplyKey(before, key, val);
        assert repl[..r + 1][..r] == repl[..r];
      }
      assert repl[..|repl|] == repl;
    }
    assert doc[..] == FillDocument(old(doc[..]), repl);
  }

  /** A paragraph whose text holds none of the placeholders comes out unchanged. */
  lemma {:induction false} NoPlaceholderUnchanged(p: Paragraph, repl: Replacements)
    requires ValidKeys(repl)
    requires forall i :: 0 <= i < |repl| ==> !Contains(FullText(p), repl[i].0)
    ensures FillParagraph(p, repl) == p
    decreases |repl|
  {
    if repl != [] {
      var n := |repl| - 1;
      assert forall i :: 0 <= i < n ==> repl[..n][i] == repl[i];
      NoPlaceholderUnchanged(p, repl[..n]);
    }
  }

  /**
   * A placeholder that no single run holds is not replaced, even when the
   * paragraph's text holds it across a run boundary.
   */
  lemma SpanningPlaceholderKept(p: Paragraph, key: string, val: string)
    requires |key| > 0
    requires forall j :: 0 <= j < |p| ==> !Contains(p[j], key)
    ensures ApplyKey(p, key, val) == p
  {
    forall j | 0 <= j < |p| ensures ReplaceAll(p[j], key, val) == p[j] {
      ReplaceAbsent(p[j], key, val);
    }
  }

  /** A placeholder split over two runs: the paragraph's text holds it, yet it stays. */
  lemma SplitPlaceholderExample(val: string)
    ensures Contains(FullText(["{{to", "pik}}"]), "{{topik}}")
    ensures ApplyKey(["{{to", "pik}}"], "{{topik}}", val) == ["{{to", "pik}}"]
  {
    var p: Paragraph := ["{{to", "pik}}"];
    assert FullText(p) == "{{topik}}" by {
      assert p[..1] == ["{{to"];
      assert FullText(p[..1]) == "{{to";
    }
    assert OccursAt(FullText(p), "{{topik}}", 0);
    SpanningPlaceholderKept(p, "{{topik}}", val);
  }

  /** A placeholder held by one run is in the paragraph's text. */
  lemma {:induction false} RunInText(p: Paragraph, key: string, j: nat)
    requires j < |p| && Contains(p[j], key)
    ensures Contains(FullText(p), key)
    decreases |p|
  {
    var n := |p| - 1;
    var init := p[..n];
    assert FullText(p) == FullText(init) + p[n];
    if j == n {
      var i :| 0 <= i <= |p[n]| && OccursAt(p[n], key, i);
      var off := |FullText(init)|;
      assert FullText(p)[off + i..off + i + |key|] == p[n][i..i + |key|];
      assert OccursAt(FullText(p), key, off + i);
    } else {
      assert init[j] == p[j];
      RunInText(init, key, j);
      var i :| 0 <= i <= |FullText(init)| && OccursAt(FullText(init), key, i);
      assert FullText(p)[i..i + |key|] == FullText(init)[i..i + |key|];
      assert OccursAt(FullText(p), key, i);
    }
  }

  /**
   * A placeholder held whole by some run, in a paragraph of any number of
   * runs: every run has it replaced.
   */
  lemma RunHeldReplaced(p: Paragraph, key: string, val: string, j: nat)
    requires |key| > 0 && j < |p| && Contains(p[j], key)
    ensures forall m :: 0 <= m < |p| ==> ApplyKey(p, key, val)[m] == ReplaceAll(p[m], key, val)
  {
    RunInText(p, key, j);
  }

  /** A label run followed by a placeholder run: the placeholder is filled. */
  lemma LabelledPlaceholderExample(val: string)
    ensures ApplyKey(["Topik: ", "{{topik}}"], "{{topik}}", val) == ["Topik: ", val]
  {
    var p: Paragraph := ["Topik: ", "{{topik}}"];
    assert OccursAt(p[1], "{{topik}}", 0);
    RunHeldReplaced(p, "{{topik}}", val, 1);
    ReplaceAbsent(p[0], "{{topik}}", val);
    ReplaceWhole("{{topik}}", val);
  }

  /** The reference reading: `str.replace` with every pair in table order. */
  function Substitute(s: string, repl: Replacements): string
    requires ValidKeys(repl)
    decreases |repl|
  {
    if repl == [] then s
    else
      var n := |repl| - 1;
      ReplaceAll(Substitute(s, repl[..n]), repl[n].0, repl[n].1)
  }

  /**
   * On a paragraph of one run, the check on the paragraph's text makes no
   * difference: the run is rewritten as by plain substitution.
   */
  lemma {:induction false} SingleRunSubstitutes(s: string, repl: Replacements)
    requires ValidKeys(repl)
    ensures FillParagraph([s], repl) == [Substitute(s, repl)]
    decreases |repl|
  {
    if repl != [] {
      var n := |repl| - 1;
      var pre := repl[..n];
      assert ValidKeys(pre) by {
        assert forall i :: 0 <= i < n ==> pre[i] == repl[i];
      }
      SingleRunSubstitutes(s, pre);
      var t := Substitute(s, pre);
      assert FullText([t]) == t by {
        assert [t][..0] == [];
      }
      if !Contains(t, repl[n].0) {
        ReplaceAbsent(t, repl[n].0, repl[n].1);
      }
    }
  }

  /** The placeholders of the interview report, paired with their values, in table order. */
  function ReportReplacements(fields: ReportFields, narasumber: string, teks: string): (r: Replacements)
    ensures ValidKeys(r) && |r| == 7
  {
    [("{{waktu}}", fields.waktu), ("{{jenis}}", fields.jenis), ("{{pewawancara}}", fields.pewawancara),
     ("{{instansi}}", fields.instansi), ("{{narasumber}}", narasumber), ("{{transkripsi}}", teks),
     ("{{topik}}", fields.topik)]
  }

  /** A `{{name}}` key: two opening braces, a name without braces, two closing braces. */
  predicate Placeholder(k: string)
  {
    && |k| >= 4 && k[0] == '{' && k[1] == '{' && k[|k| - 2] == '}' && k[|k| - 1] == '}'
    && forall q :: 2 <= q < |k| - 2 ==> k[q] != '{' && k[q] != '}'
  }

  /** One placeholder occurs inside another only when the two are the same. */
  lemma PlaceholderInside(a: string, b: string)
    requires Placeholder(a) && Placeholder(b) && Contains(a, b)
    ensures a == b
  {
    var p :| 0 <= p <= |a| && OccursAt(a, b, p);
    assert a[p] == b[0] && a[p + 1] == b[1];
    assert p == 0;
    assert a[|b| - 1] == b[|b| - 1] && a[|b| - 2] == b[|b| - 2];
    assert |b| == |a|;
  }

  /** A text without `{{` holds no placeholder. */
  lemma NoBracesNoPlaceholder(v: string, k: string)
    requires Placeholder(k) && !Contains(v, "{{")
    ensures !Contains(v, k)
  {
    if Contains(v, k) {
      var p :| 0 <= p <= |v| && OccursAt(v, k, p);
      assert v[p..p + 2] == k[..2] == "{{";
      assert OccursAt(v, "{{", p);
    }
  }

  /** Substitution leaves a text alone that holds none of the keys. */
  lemma {:induction false} SubstituteAbsent(s: string, repl: Replacements)
    requires ValidKeys(repl)
    requires forall j :: 0 <= j < |repl| ==> !Contains(s, repl[j].0)
    ensures Substitute(s, repl) == s
    decreases |repl|
  {
    if repl != [] {
      var n := |repl| - 1;
      assert forall j :: 0 <= j < n ==> repl[..n][j] == repl[j];
      SubstituteAbsent(s, repl[..n]);
      ReplaceAbsent(s, repl[n].0, repl[n].1);
    }
  }

  /**
   * The text of key `i` alone becomes value `i` when no earlier key occurs in
   * it and no later key occurs in the value.
   */
  lemma {:induction false} SubstituteKey(repl: Replacements, i: nat)
    requires ValidKeys(repl) && i < |repl|
    requires forall j :: 0 <= j < i ==> !Contains(repl[i].0, repl[j].0)
    requires forall j :: i < j < |repl| ==> !Contains(repl[i].1, repl[j].0)
    ensures Substitute(repl[i].0, repl) == repl[i].1
    decreases |repl|
  {
    var n := |repl| - 1;
    var pre := repl[..n];
    assert forall j :: 0 <= j < n ==> pre[j] == repl[j];
    if i < n {
      SubstituteKey(pre, i);
      ReplaceAbsent(repl[i].1, repl[n].0, repl[n].1);
    } else {
      SubstituteAbsent(repl[i].0, pre);
      ReplaceWhole(repl[i].0, repl[i].1);
    }
  }

  /** Every key of the report table is a placeholder, and no key is repeated. */
  lemma ReportKeys(fields: ReportFields, narasumber: string, teks: string)
    ensures var r := ReportReplacements(fields, narasumber, teks);
      && (forall j :: 0 <= j < |r| ==> Placeholder(r[j].0))
      && (forall i, j :: 0 <= i < j < |r| ==> r[i].0 != r[j].0)
  {
  }

  /**
   * A paragraph made of one run that is exactly a report placeholder comes
   * out as that placeholder's value, provided no value holds `{{` (a value
   * that does would itself be rewritten by a later key).
   */
  lemma ReportPlaceholderFilled(fields: ReportFields, narasumber: string, teks: string, i: nat)
    requires i < 7
    requires var r := ReportReplacements(fields, narasumber, teks);
      forall j :: 0 <= j < |r| ==> !Contains(r[j].1, "{{")
    ensures var r := ReportReplacements(fields, narasumber, teks);
      FillParagraph([r[i].0], r) == [r[i].1]
  {
    var r := ReportReplacements(fields, narasumber, teks);
    ReportKeys(fields, narasumber, teks);
    forall j | 0 <= j < i ensures !Contains(r[i].0, r[j].0) {
      if Contains(r[i].0, r[j].0) {
        PlaceholderInside(r[i].0, r[j].0);
      }
    }
    forall j | i < j < |r| ensures !Contains(r[i].1, r[j].0) {
      NoBracesNoPlaceholder(r[i].1, r[j].0);
    }
    SubstituteKey(r, i);
    SingleRunSubstitutes(r[i].0, r);
  }
}
