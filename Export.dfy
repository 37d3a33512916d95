/** The file name `handleExportImage` gives the exported diagram
    (MermaidViewer.tsx). The clock is read by the caller: the date and time
    fields come in as numbers, as `Date`'s getters return them. */
module Export {
  import opened Wrappers
  import opened Text
  import opened Scope

  /** `pad` (line 350): `n.toString().padStart(2, '0')`. */
  function Pad(n: nat): string {
    var d := Decimal(n);
    if |d| < 2 then "0" + d else d
  }

  /** Below 100, `pad` gives exactly two digits that read back as `n`; from
      10 on it adds nothing. */
  lemma PadRoundTrip(n: nat)
    ensures n < 100 ==> |Pad(n)| == 2 && DecimalValue(Pad(n)) == n
    ensures n >= 10 ==> Pad(n) == Decimal(n)
    ensures forall k :: 0 <= k < |Pad(n)| ==> '0' <= Pad(n)[k] <= '9'
  {
    DecimalLength(n);
    DecimalRoundTrip(n);
    var d := Decimal(n);
    if n < 10 {
      var p := "0" + d;
      assert p[..1] == "0";
      assert DecimalValue(p) == 10 * DecimalValue("0") + DigitValue(d[0]);
      assert DecimalValue(d) == 10 * DecimalValue(d[..0]) + DigitValue(d[0]);
      assert d[..0] == [];
    }
  }

  /** `dateStr` (line 351): `YYYYMMDD-HHmmss`, where `month` is the
      zero-based `getMonth()`. */
  function DateStamp(year: nat, month: nat, day: nat, hours: nat, minutes: nat, seconds: nat): string {
    Decimal(year) + Pad(month + 1) + Pad(day) + "-" + Pad(hours) + Pad(minutes) + Pad(seconds)
  }

  /** `focus` (line 352): the lower-cased selection, or `all` when nothing
      (or the empty name) is selected. */
  function FocusPart(selectedTable: Option<string>): string {
    if NoFocus(selectedTable) then "all" else ToLower(selectedTable.value)
  }

  /** `filename` (line 353). */
  function ExportName(selectedTable: Option<string>, year: nat, month: nat, day: nat,
                      hours: nat, minutes: nat, seconds: nat): string {
    "er-diagram-" + FocusPart(selectedTable) + "-" + DateStamp(year, month, day, hours, minutes, seconds) + ".svg"
  }

  /** The six fields read back from a 15-character stamp. */
  datatype Fields = Fields(year: int, month: int, day: int, hours: int, minutes: int, seconds: int)

  function ReadStamp(stamp: string): Fields
    requires |stamp| == 15
  {
    Fields(DecimalValue(stamp[..4]), DecimalValue(stamp[4..6]), DecimalValue(stamp[6..8]),
           DecimalValue(stamp[9..11]), DecimalValue(stamp[11..13]), DecimalValue(stamp[13..15]))
  }

  /** Fields of the widths the stamp uses are read back from their places. */
  lemma ReadStampFields(y: string, mo: string, d: string, h: string, mi: string, s: string)
    requires |y| == 4 && |mo| == 2 && |d| == 2 && |h| == 2 && |mi| == 2 && |s| == 2
    ensures |y + mo + d + "-" + h + mi + s| == 15
    ensures ReadStamp(y + mo + d + "-" + h + mi + s) ==
            Fields(DecimalValue(y), DecimalValue(mo), DecimalValue(d),
                   DecimalValue(h), DecimalValue(mi), DecimalValue(s))
  {
    var stamp := y + mo + d + "-" + h + mi + s;
    assert stamp[..4] == y;
    assert stamp[4..6] == mo;
    assert stamp[6..8] == d;
    assert stamp[9..11] == h;
    assert stamp[11..13] == mi;
    assert stamp[13..15] == s;
  }

  /** For a four-digit year and the ranges `Date` returns, the stamp has a
      fixed width, a `-` between date and time, and every field can be read
      back from its place: the month as the calendar month (`getMonth() + 1`). */
  lemma DateStampRoundTrip(year: nat, month: nat, day: nat, hours: nat, minutes: nat, seconds: nat)
    requires 1000 <= year < 10000 && month < 12 && 1 <= day <= 31
    requires hours < 24 && minutes < 60 && seconds < 60
    ensures |DateStamp(year, month, day, hours, minutes, seconds)| == 15
    ensures DateStamp(year, month, day, hours, minutes, seconds)[8] == '-'
    ensures ReadStamp(DateStamp(year, month, day, hours, minutes, seconds)) ==
            Fields(year, month + 1, day, hours, minutes, seconds)
  {
    DecimalLength(year);
    DecimalRoundTrip(year);
    PadRoundTrip(month + 1);
    PadRoundTrip(day);
    PadRoundTrip(hours);
    PadRoundTrip(minutes);
    PadRoundTrip(seconds);
    ReadStampFields(Decimal(year), Pad(month + 1), Pad(day), Pad(hours), Pad(minutes), Pad(seconds));
  }

  /** The name starts `er-diagram-`, ends `.svg`, and carries the focus part
      between them, followed by a `-` and the date stamp. */
  lemma ExportNameShape(selectedTable: Option<string>, year: nat, month: nat, day: nat,
                        hours: nat, minutes: nat, seconds: nat)
    ensures var name := ExportName(selectedTable, year, month, day, hours, minutes, seconds);
            var focus := FocusPart(selectedTable);
            |name| > 16 + |focus| &&
            name[..11] == "er-diagram-" && name[11..11 + |focus|] == focus &&
            name[11 + |focus|] == '-' && name[|name| - 4..] == ".svg" &&
            name[12 + |focus|..|name| - 4] == DateStamp(year, month, day, hours, minutes, seconds)
  {
    var stamp := DateStamp(year, month, day, hours, minutes, seconds);
    assert |stamp| >= 1 + 2 + 2 + 1 + 2 + 2 + 2;
    NameParts(FocusPart(selectedTable), stamp);
  }

  lemma NameParts(focus: string, stamp: string)
    requires |stamp| > 0
    ensures var name := "er-diagram-" + focus + "-" + stamp + ".svg";
            |name| > 16 + |focus| &&
            name[..11] == "er-diagram-" && name[11..11 + |focus|] == focus &&
            name[11 + |focus|] == '-' && name[|name| - 4..] == ".svg" &&
            name[12 + |focus|..|name| - 4] == stamp
  {
  }

  /** Without a selection the focus part is `all`; with one it is the
      selection lower-cased, letter for letter, with no capital left. */
  lemma FocusPartLowered(selectedTable: Option<string>)
    ensures NoFocus(selectedTable) ==> FocusPart(selectedTable) == "all"
    ensures !NoFocus(selectedTable) ==>
              |FocusPart(selectedTable)| == |selectedTable.value| &&
              forall k :: 0 <= k < |selectedTable.value| ==>
                !('A' <= FocusPart(selectedTable)[k] <= 'Z')
    ensures !NoFocus(selectedTable) ==>
              forall k :: 0 <= k < |selectedTable.value| ==>
                FocusPart(selectedTable)[k] ==
                  if 'A' <= selectedTable.value[k] <= 'Z'
                  then (selectedTable.value[k] as int + 32) as char
                  else selectedTable.value[k]
  {
    if !NoFocus(selectedTable) {
      var focus := FocusPart(selectedTable);
      forall k | 0 <= k < |selectedTable.value| ensures !('A' <= focus[k] <= 'Z') {
        var c := selectedTable.value[k];
        if 'A' <= c <= 'Z' {
          assert focus[k] == (c as int + 32) as char;
        }
      }
    }
  }

  /** A table whose name lower-cases to `all` exports under the same name as
      the whole diagram. */
  lemma AllTableLooksUnfocused()
    ensures FocusPart(Some("ALL")) == FocusPart(None)
  {
    assert ToLower("ALL") == "all";
  }
}
