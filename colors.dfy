/** src/lib/colors.ts: badge colours of line labels. */
module Colors {
  import opened Types
  import opened Text

  /** The `colors` table: U-Bahn and S-Bahn lines, plus the `tram` and
      `bus` fallbacks (which are themselves keys). */
  const ColorTable: map<string, string> := map[
    "U1" := "#52822f",
    "U2" := "#c20831",
    "U3" := "#ec6726",
    "U4" := "#00a984",
    "U5" := "#bb7a00",
    "U6" := "#0065ad",
    "S1" := "#1b9fc6",
    "S2" := "#69a338",
    "S3" := "#973083",
    "S4" := "#e23331",
    "S5" := "#136680",
    "S6" := "#008d5e",
    "S7" := "#883b32",
    "S8" := "#2d2b29",
    "tram" := "#E30613",
    "bus" := "#00586A"
  ]

  const TramColor := "#E30613"
  const BusColor := "#00586A"

  /** `parseInt(line) < 50`; `NaN < 50` is false. */
  predicate LowNumber(line: string) {
    var n := ParseIntPrefix(line);
    n.Some? && n.value < 50
  }

  /** `getLineBackground(line)`: the table colour of a listed label, else
      tram red for a label whose leading integer is below 50, else bus
      teal. Every result is a colour of the table. */
  function GetLineBackground(line: string): (c: string)
    ensures c in ColorTable.Values
    ensures line in ColorTable ==> c == ColorTable[line]
    ensures line !in ColorTable ==> (c == TramColor <==> LowNumber(line))
    ensures line !in ColorTable ==> (c == BusColor <==> !LowNumber(line))
  {
    assert ColorTable["tram"] == TramColor && ColorTable["bus"] == BusColor;
    if line in ColorTable then ColorTable[line]
    else if LowNumber(line) then ColorTable["tram"]
    else ColorTable["bus"]
  }

  /** `getLineFontcolor(line)`: yellow on the S8 badge, white elsewhere. */
  function GetLineFontcolor(line: string): (c: string)
    ensures c == "#fdce32" <==> line == "S8"
    ensures c == "#fff" <==> line != "S8"
  {
    if line == "S8" then "#fdce32" else "#fff"
  }

  /** A listed line keeps its own colour. */
  lemma U6IsBlue()
    ensures GetLineBackground("U6") == "#0065ad"
  {
  }

  /** A tram number below 50 is red. */
  lemma Nineteen()
    ensures GetLineBackground("19") == TramColor
  {
    assert ParseIntPrefix("19") == Some(19) by {
      ParseIntOfIntToString(19, "");
      assert NatToString(1) == "1";
      assert IntToString(19) + "" == "19";
    }
    assert "19" !in ColorTable;
  }

  /** A bus number is 50 or more. */
  lemma OneHundred()
    ensures GetLineBackground("100") == BusColor
  {
    assert ParseIntPrefix("100") == Some(100) by {
      ParseIntOfIntToString(100, "");
      assert NatToString(1) == "1";
      assert NatToString(10) == "10";
      assert IntToString(100) + "" == "100";
    }
    assert "100" !in ColorTable;
  }

  /** A label that does not begin with a number is bus coloured, even when
      it holds a small number later on. */
  lemma LetterPrefixIsBus()
    ensures GetLineBackground("Tram19") == BusColor
    ensures GetLineBackground("N40") == BusColor
  {
    ParseNonNumeric("Tram19");
    ParseNonNumeric("N40");
  }

  /** S8 has yellow text on its dark badge. */
  lemma S8Badge()
    ensures GetLineBackground("S8") == "#2d2b29"
    ensures GetLineFontcolor("S8") == "#fdce32"
  {
  }
}
