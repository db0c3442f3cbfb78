/** UUID text as the two back-ends handle it. The platform prints a GUID in
    braces, `{xxxxxxxx-xxxx-xxxx-xxxx-xxxxxxxxxxxx}`; both back-ends keep the 36
    characters between the braces with `substr(1, 36)`, and the GATT back-end
    puts braces back around caller text before handing it to `IIDFromString`. */
module UuidText {
  import opened Common
  import MacAddress

  /** The positions of the four '-' in the 8-4-4-4-12 layout. */
  predicate IsDashPosition(i: int) {
    i == 8 || i == 13 || i == 18 || i == 23
  }

  /** GUID text in the 8-4-4-4-12 layout, hexadecimal digits of either case. */
  predicate IsGuidText(s: string) {
    |s| == 36 && forall i | 0 <= i < 36 :: if IsDashPosition(i) then s[i] == '-' else MacAddress.IsHexChar(s[i])
  }

  /** GUID text with lower-case digits: the one text of each GUID. */
  predicate IsCanonicalGuid(s: string) {
    |s| == 36 && forall i | 0 <= i < 36 :: if IsDashPosition(i) then s[i] == '-' else MacAddress.IsLowerHexChar(s[i])
  }

  /** A GUID, kept as its canonical 36-character text (the text the platform
      prints between braces). Two GUIDs are equal exactly when these texts
      are. */
  type Guid = s: string | IsCanonicalGuid(s) witness "00000000-0000-0000-0000-000000000000"

  /** The GUID that GUID text of either case denotes. */
  function GuidOf(t: string): (g: Guid)
    requires IsGuidText(t)
    ensures g == MacAddress.Lower(t)
  {
    var g := MacAddress.Lower(t);
    assert forall i | 0 <= i < 36 :: g[i] == MacAddress.ToLower(t[i]);
    g
  }

  /** A GUID's own text denotes it. */
  lemma GuidOfCanonical(g: Guid)
    ensures IsGuidText(g) && GuidOf(g) == g
  {
    assert forall i | 0 <= i < 36 :: MacAddress.Lower(g)[i] == g[i];
  }

  /** Texts that differ only in the case of their digits denote one GUID. */
  lemma {:induction false} GuidOfIgnoresCase(t: string)
    requires IsGuidText(t)
    ensures IsGuidText(MacAddress.Lower(t)) && GuidOf(MacAddress.Lower(t)) == GuidOf(t)
  {
    GuidOfCanonical(GuidOf(t));
  }

  /** `Guid::ToString()`: the GUID's text in braces. */
  function BracedText(g: Guid): (s: string)
    ensures |s| == 38 && s[0] == '{' && s[37] == '}'
  {
    "{" + g + "}"
  }

  /** `std::string::substr(pos, count)`: at most `count` characters from `pos`
      (the library throws when `pos` is past the end, hence the requirement). */
  function Substr(s: string, pos: nat, count: nat): (r: string)
    requires pos <= |s|
    ensures |r| == if pos + count <= |s| then count else |s| - pos
    ensures forall i | 0 <= i < |r| :: r[i] == s[pos + i]
  {
    if pos + count <= |s| then s[pos..pos + count] else s[pos..]
  }

  /** `substr(1, 36)` of a GUID's braced text (`uuid_str` of a characteristic,
      and each service UUID the scanner records). */
  function UuidString(g: Guid): (s: string)
    ensures s == g
  {
    Substr(BracedText(g), 1, 36)
  }

  /** The text `UUID_TO_GUID` builds from caller text before parsing it. */
  function WrapInBraces(uuid: string): (s: string)
    ensures |s| == |uuid| + 2 && s[0] == '{' && s[|s| - 1] == '}'
    ensures s[1..|s| - 1] == uuid
  {
    "{" + uuid + "}"
  }

  /** Braces put around a characteristic's `uuid_str` give back the GUID's
      platform text, so `find_characteristic(get_uuid())` asks the parser for
      exactly what `Guid::ToString()` printed. */
  lemma WrapUuidString(g: Guid)
    ensures WrapInBraces(UuidString(g)) == BracedText(g)
  {
  }

  /** The other direction: stripping the braces from braced text of any
      38-character shape and wrapping again restores it. */
  lemma {:induction false} StripThenWrap(s: string)
    requires |s| == 38 && s[0] == '{' && s[37] == '}'
    ensures WrapInBraces(Substr(s, 1, 36)) == s
  {
    var inner := Substr(s, 1, 36);
    assert inner == s[1..37];
    assert s == [s[0]] + s[1..37] + [s[37]];
  }

  /** `IIDFromString` on the text `UUID_TO_GUID` builds: it succeeds exactly
      when the caller's text is GUID text, of either case, and yields that
      GUID. The function itself is outside the model; members that depend on
      it take it as a parameter and, where needed, require this of it. */
  ghost predicate ParsesBracedText(iid: string -> Option<Guid>)
  {
    forall t: string :: iid(WrapInBraces(t)) == if IsGuidText(t) then Some(GuidOf(t)) else None
  }
}
