/**
 * The song card's play-count label and when it shows. Its duration, like the
 * player's elapsed time, is rendered by `Text.MinSec`.
 */
module SongCard {
  import opened Wrappers
  import opened Text

  /**
   * The play-count label: the plain decimal count below a thousand, else the
   * count scaled by a thousand ("K") or a million ("M"). The one-decimal
   * digits `toFixed(1)` prints are not modelled.
   */
  datatype CountLabel = Plain(digits: string) | Scaled(count: nat, unit: nat, suffix: char)

  function FormatPlayCount(count: nat): (r: CountLabel)
    ensures r.Plain? <==> count < 1000
    ensures r.Scaled? ==> r.count == count && 1000 <= r.unit <= count
  {
    if count >= 1000000 then Scaled(count, 1000000, 'M')
    else if count >= 1000 then Scaled(count, 1000, 'K')
    else Plain(NatToString(count))
  }

  /** How big a label says the count is: 0 plain, 1 thousands, 2 millions. */
  function Magnitude(l: CountLabel): nat {
    match l
    case Plain(_) => 0
    case Scaled(_, unit, _) => if unit == 1000 then 1 else 2
  }

  /**
   * A count below a thousand reads back exactly from its label; a larger one
   * is labelled "K" below a million and "M" from a million on, with the
   * matching unit (never above the count); and larger counts never
   * get a smaller unit.
   */
  lemma FormatPlayCountProperties(a: nat, b: nat)
    ensures FormatPlayCount(a).Plain? <==> a < 1000
    ensures FormatPlayCount(a).Plain? ==> DecimalValue(FormatPlayCount(a).digits) == a
    ensures FormatPlayCount(a).Scaled? ==>
      var l := FormatPlayCount(a);
      && l.count == a && l.unit <= a
      && (l.suffix == 'K' <==> a < 1000000) && (l.suffix == 'K' || l.suffix == 'M')
      && (l.suffix == 'K' ==> l.unit == 1000) && (l.suffix == 'M' ==> l.unit == 1000000)
    ensures a <= b ==> Magnitude(FormatPlayCount(a)) <= Magnitude(FormatPlayCount(b))
  {
    NatToStringRoundTrip(a);
  }

  /** `showPlayCount && song.playCount`: the label shows only when asked for and the count is present and not 0. */
  function ShowsPlayCount(showPlayCount: bool, playCount: Option<nat>): (r: bool)
    ensures r <==> showPlayCount && playCount.Some? && playCount.value != 0
    ensures r <==> showPlayCount && playCount.Some? && FormatPlayCount(playCount.value) != Plain("0")
  {
    ZeroLabel(playCount.GetOr(0));
    showPlayCount && playCount.Some? && playCount.value != 0
  }

  /** The only count whose label reads "0" is zero. */
  lemma ZeroLabel(count: nat)
    ensures FormatPlayCount(count) == Plain("0") <==> count == 0
  {
    if 0 < count < 10 {
      assert NatToString(count) == [DigitChar(count)];
    }
  }
}
