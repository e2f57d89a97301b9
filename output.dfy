/** The name of the file `writeDCR` writes a template to, under the `templates/` directory. */
module Output {
  import opened Strings

  const Prefix: string := "dcr-"
  const Extension: string := ".json"

  /**
   * `writeDCR`'s file name: `dcr-Combined-<count>.json` for several tables,
   * `dcr-<table>-1.json` for a single one. Callers never pass an empty list
   * (it would raise IndexError).
   */
  function Filename(tables: seq<string>): (name: string)
    requires |tables| >= 1
    ensures |tables| == 1 ==> name == Prefix + tables[0] + "-1" + Extension
    ensures |tables| > 1 ==> name == Prefix + "Combined-" + Decimal(|tables|) + Extension
  {
    if |tables| > 1 then Prefix + "Combined-" + Decimal(|tables|) + Extension
    else
      assert Decimal(1) == "1";
      Prefix + tables[0] + "-" + Decimal(|tables|) + Extension
  }

  /** Distinct single tables are written to distinct files. */
  lemma SingleNamesDistinct(a: string, b: string)
    requires Filename([a]) == Filename([b])
    ensures a == b
  {
    var x, y := Filename([a]), Filename([b]);
    assert x[|Prefix|..|Prefix| + |a|] == a;
    assert y[|Prefix|..|Prefix| + |b|] == b;
  }

  /** Two combined files have the same name exactly when they combine the same number of tables. */
  lemma CombinedNamesGiveCount(a: seq<string>, b: seq<string>)
    requires |a| > 1 && |b| > 1
    ensures Filename(a) == Filename(b) <==> |a| == |b|
  {
    var x, y := Filename(a), Filename(b);
    if x == y {
      var da, db := Decimal(|a|), Decimal(|b|);
      var p := |Prefix + "Combined-"|;
      assert |da| == |db|;
      assert x[p..p + |da|] == da;
      assert y[p..p + |db|] == db;
      DecimalInjective(|a|, |b|);
    }
  }

  /** A combined file never takes the name of a single-table file, whatever that table is called. */
  lemma CombinedNeverSingle(tables: seq<string>, t: string)
    requires |tables| > 1
    ensures Filename(tables) != Filename([t])
  {
    var x, y := Filename(tables), Filename([t]);
    var digits := Decimal(|tables|);
    assert x == Prefix + "Combined-" + digits + Extension;
    assert y == Prefix + t + "-1" + Extension;
    if |x| == |y| {
      var n := |x|;
      if |digits| >= 2 {
        // before ".json" x has two digits, y has "-1"
        assert x[n - 7] == digits[|digits| - 2] && IsDigit(x[n - 7]);
        assert y[n - 7] == '-';
      } else {
        // a one-digit count above 1 is not "1"
        DecimalRoundTrip(|tables|);
        assert digits == [digits[0]];
        assert x[n - 6] == digits[0] && y[n - 6] == '1';
      }
    }
  }
}
