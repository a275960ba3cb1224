/** The parsing half of `get_rtt` (utils.py): scamper's summary line
    `rtt min/avg/max/stddev = <min>/<avg>/<max>/<stddev> ms` becomes the text of the average
    field. Running scamper is left to the caller, who passes its output in; `float(avg)` is
    the predicate `floatOk`, telling whether Python's `float` accepts a field. `None` stands
    for the `float('inf')` sentinel. */
module Rtt {

  import opened Wrappers
  import opened Text

  /** The four `/`-separated fields that follow the first " = " of the output: the second
      " = "-separated piece with every "ms" removed and white space stripped. */
  function Fields(piece: string): seq<string>
  {
    SplitOn(Strip(Replace(piece, "ms", "")), "/")
  }

  /** `get_rtt` once scamper has answered with `stats`. */
  function ParseRtt(stats: string, floatOk: string -> bool): (r: Option<string>)
    ensures r.Some? ==> stats != "" && !Free(stats, " = ") && floatOk(r.value) && '/' !in r.value
  {
    if stats == "" then None
    else
      var pieces := SplitOn(stats, " = ");
      if |pieces| < 2 then None
      else
        var r := Average(Fields(pieces[1]), floatOk);
        assert r.Some? ==> !Free(stats, " = ") by {
          if Free(stats, " = ") { SplitFree(stats, " = "); }
        }
        r
  }

  /** `min, avg, max, std_dev = fields` followed by `float(avg)`: anything but exactly four
      fields, or an average `float` refuses, gives the sentinel. */
  function Average(fields: seq<string>, floatOk: string -> bool): (r: Option<string>)
    requires forall i :: 0 <= i < |fields| ==> Free(fields[i], "/")
    ensures r.Some? ==> floatOk(r.value) && '/' !in r.value
  {
    if |fields| != 4 then None
    else if floatOk(fields[1]) then
      FreeOfChar(fields[1], '/');
      Some(fields[1])
    else None
  }

  /** Output without any " = " gives the sentinel. */
  lemma NoEqualsIsInfinite(stats: string, floatOk: string -> bool)
    requires Free(stats, " = ")
    ensures ParseRtt(stats, floatOk) == None
  {
    SplitFree(stats, " = ");
  }

  /** The sentinel comes back for empty output, for output without " = ", and whenever the
      piece after the first " = " does not hold exactly four fields. */
  lemma SentinelCases(stats: string, floatOk: string -> bool)
    ensures stats == "" ==> ParseRtt(stats, floatOk) == None
    ensures |SplitOn(stats, " = ")| < 2 ==> ParseRtt(stats, floatOk) == None
    ensures |SplitOn(stats, " = ")| >= 2 && |Fields(SplitOn(stats, " = ")[1])| != 4 ==>
              ParseRtt(stats, floatOk) == None
  {
  }

  /** A field as scamper prints a number: no slash, equals sign, letter m or white space. */
  predicate NumberLike(f: string)
  {
    '/' !in f && '=' !in f && 'm' !in f && forall i :: 0 <= i < |f| ==> !IsSpace(f[i])
  }

  /** The first " = " is the one after a prefix without an equals sign, and only one follows
      when the rest has no equals sign either. */
  lemma PiecesOfLine(prefix: string, y: string)
    requires '=' !in prefix && '=' !in y
    ensures SplitOn(prefix + " = " + y, " = ") == [prefix, y]
  {
    var stats := prefix + " = " + y;
    forall k | 0 <= k < |prefix| ensures !OccursAt(stats, " = ", k) {
      assert k + 1 < |prefix| ==> stats[k + 1] == prefix[k + 1];
      assert k + 1 == |prefix| ==> stats[k + 1] == ' ';
      assert k + 3 <= |stats| ==> stats[k..k + 3][1] == stats[k + 1];
    }
    SplitAfter(prefix, " = ", y);
    FreeByChar(y, " = ", 1);
    SplitFree(y, " = ");
  }

  /** Removing "ms" from `x + "ms" + trailer` drops only the unit when `x` has no letter m
      and the trailer is white space. */
  lemma UnitRemoved(x: string, trailer: string)
    requires 'm' !in x && AllSpace(trailer)
    ensures Replace(x + "ms" + trailer, "ms", "") == x + trailer
  {
    assert forall i :: 0 <= i < |trailer| ==> trailer[i] != 'm';
    SplitAfterLacking(x, "ms", trailer);
    FreeByChar(trailer, "ms", 0);
    SplitFree(trailer, "ms");
    assert SplitOn(x + "ms" + trailer, "ms") == [x, trailer];
    assert Join([x, trailer], "") == x + "" + Join([trailer], "");
  }

  lemma TwoFields(c: string, d: string)
    requires '/' !in c && '/' !in d
    ensures SplitOn(c + "/" + d, "/") == [c, d]
  {
    FreeOfChar(d, '/');
    SplitFree(d, "/");
    SplitAfterLacking(c, "/", d);
  }

  lemma ThreeFields(b: string, c: string, d: string)
    requires '/' !in b && '/' !in c && '/' !in d
    ensures SplitOn(b + "/" + c + "/" + d, "/") == [b, c, d]
  {
    ThreeFieldsGrouped(b, c, d);
    assert b + "/" + c + "/" + d == b + "/" + (c + "/" + d);
  }

  lemma ThreeFieldsGrouped(b: string, c: string, d: string)
    requires '/' !in b && '/' !in c && '/' !in d
    ensures SplitOn(b + "/" + (c + "/" + d), "/") == [b, c, d]
  {
    TwoFields(c, d);
    SplitAfterLacking(b, "/", c + "/" + d);
  }

  /** Four slash-free fields joined by slashes split back into those four. */
  lemma FourFields(a: string, b: string, c: string, d: string)
    requires '/' !in a && '/' !in b && '/' !in c && '/' !in d
    ensures SplitOn(a + "/" + b + "/" + c + "/" + d, "/") == [a, b, c, d]
  {
    FourFieldsGrouped(a, b, c, d);
    Regroup(a, b, c, d);
  }

  lemma FourFieldsGrouped(a: string, b: string, c: string, d: string)
    requires '/' !in a && '/' !in b && '/' !in c && '/' !in d
    ensures SplitOn(a + "/" + (b + "/" + c + "/" + d), "/") == [a, b, c, d]
  {
    ThreeFields(b, c, d);
    SplitAfterLacking(a, "/", b + "/" + c + "/" + d);
  }

  /** A solver aid, not a property of the model: concatenation regrouped. Stated as a separate
      lemma because `FourFields` runs out of resource when this step is inlined. */
  lemma Regroup(a: string, b: string, c: string, d: string)
    ensures a + "/" + b + "/" + c + "/" + d == a + "/" + (b + "/" + c + "/" + d)
  {
  }

  /** The output of a line `prefix = y` is decided by the fields of `y` when neither part
      has an equals sign. */
  lemma LineParse(prefix: string, y: string, floatOk: string -> bool)
    requires '=' !in prefix && '=' !in y
    ensures ParseRtt(prefix + " = " + y, floatOk) == Average(Fields(y), floatOk)
  {
    PiecesOfLine(prefix, y);
  }

  lemma UnitDropped(core: string, trailer: string)
    requires 'm' !in core && AllSpace(trailer)
    ensures Replace(core + " ms" + trailer, "ms", "") == core + " " + trailer
  {
    var x := core + " ";
    assert core + " ms" + trailer == x + "ms" + trailer;
    UnitRemoved(x, trailer);
  }

  lemma StripMeasure(core: string, trailer: string)
    requires AllSpace(trailer)
    requires core != [] && !IsSpace(core[0]) && !IsSpace(core[|core| - 1])
    ensures Strip(core + " " + trailer) == core
  {
    var post := " " + trailer;
    assert AllSpace(post) by {
      forall i | 0 <= i < |post| ensures IsSpace(post[i]) {
        if i > 0 { assert post[i] == trailer[i - 1]; }
      }
    }
    assert core + " " + trailer == "" + core + post;
    StripPadded("", core, post);
  }

  /** The fields of `core + " ms" + trailer` are those of `core`. */
  lemma FieldsOfMeasure(core: string, trailer: string)
    requires 'm' !in core && AllSpace(trailer)
    requires core != [] && !IsSpace(core[0]) && !IsSpace(core[|core| - 1])
    ensures Fields(core + " ms" + trailer) == SplitOn(core, "/")
  {
    UnitDropped(core, trailer);
    StripMeasure(core, trailer);
  }

  /** Four number-like fields joined by slashes have no unit letter, no equals sign and no
      surrounding blanks. */
  lemma CoreShape(a: string, b: string, c: string, d: string)
    requires NumberLike(a) && NumberLike(b) && NumberLike(c) && NumberLike(d)
    ensures var core := a + "/" + b + "/" + c + "/" + d;
      'm' !in core && '=' !in core && core != [] && !IsSpace(core[0]) && !IsSpace(core[|core| - 1])
  {
    var core := a + "/" + b + "/" + c + "/" + d;
    assert core[0] == (if a == [] then '/' else a[0]);
    assert core[|core| - 1] == (if d == [] then '/' else d[|d| - 1]);
  }

  lemma MeasureHasNoEquals(core: string, trailer: string)
    requires '=' !in core && AllSpace(trailer)
    ensures '=' !in core + " ms" + trailer
  {
    assert forall i :: 0 <= i < |trailer| ==> trailer[i] != '=';
  }

  /** A line `prefix = core ms trailer` parses as the slash-separated fields of `core`. */
  lemma MeasureParse(prefix: string, core: string, trailer: string, floatOk: string -> bool)
    requires '=' !in prefix && '=' !in core && 'm' !in core && AllSpace(trailer)
    requires core != [] && !IsSpace(core[0]) && !IsSpace(core[|core| - 1])
    ensures ParseRtt(prefix + " = " + (core + " ms" + trailer), floatOk)
            == Average(SplitOn(core, "/"), floatOk)
  {
    MeasureHasNoEquals(core, trailer);
    LineParse(prefix, core + " ms" + trailer, floatOk);
    FieldsOfMeasure(core, trailer);
  }

  lemma AverageOfFour(a: string, b: string, c: string, d: string, floatOk: string -> bool)
    requires '/' !in a && '/' !in b && '/' !in c && '/' !in d
    ensures SplitOn(a + "/" + b + "/" + c + "/" + d, "/") == [a, b, c, d]
    ensures Average(SplitOn(a + "/" + b + "/" + c + "/" + d, "/"), floatOk)
            == if floatOk(b) then Some(b) else None
  {
    FourFields(a, b, c, d);
  }

  /** A summary line with number-like fields and a prefix without an equals sign parses to
      its second field. */
  lemma ScamperLine(prefix: string, a: string, b: string, c: string, d: string, trailer: string,
                    floatOk: string -> bool)
    requires '=' !in prefix
    requires NumberLike(a) && NumberLike(b) && NumberLike(c) && NumberLike(d)
    requires AllSpace(trailer)
    ensures ParseRtt(prefix + " = " + a + "/" + b + "/" + c + "/" + d + " ms" + trailer, floatOk)
            == if floatOk(b) then Some(b) else None
  {
    var core := a + "/" + b + "/" + c + "/" + d;
    assert prefix + " = " + a + "/" + b + "/" + c + "/" + d + " ms" + trailer
           == prefix + " = " + (core + " ms" + trailer);
    CoreShape(a, b, c, d);
    MeasureParse(prefix, core, trailer, floatOk);
    AverageOfFour(a, b, c, d, floatOk);
  }
}
