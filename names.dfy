/**
 * Doctor-name normalisation (`normalize_name`): a missing name becomes the
 * placeholder "Desconocido"; otherwise the name is reduced to ASCII, stripped
 * of surrounding whitespace and title-cased the way Python's `str.title` does.
 */
module Names {
  import opened Wrappers
  import opened Text

  const Placeholder: string := "Desconocido"

  /** What `unicodedata.normalize('NFKD', c)` followed by
      `.encode('ASCII', 'ignore')` leaves of one character: ASCII is kept, the
      Latin-1 letters lose their accents, compatibility characters such as
      NO-BREAK SPACE, the superscript digits, the ordinal indicators and the
      vulgar fractions keep their ASCII part, and everything else vanishes. */
  function AsciiFold(c: char): (r: string)
    ensures IsAsciiString(r)
    ensures IsAscii(c) ==> r == [c]
  {
    var n := c as int;
    if n < 0x80 then [c]
    else if n == 0xA0 || n == 0xA8 || n == 0xAF || n == 0xB4 || n == 0xB8 then " "
    else if 0x2000 <= n <= 0x200A || n == 0x202F || n == 0x205F || n == 0x3000 then " "
    else if n == 0xAA then "a"
    else if n == 0xBA then "o"
    else if n == 0xB2 then "2"
    else if n == 0xB3 then "3"
    else if n == 0xB9 then "1"
    else if n == 0xBC then "14"
    else if n == 0xBD then "12"
    else if n == 0xBE then "34"
    else if 0xC0 <= n <= 0xC5 then "A"
    else if n == 0xC7 then "C"
    else if 0xC8 <= n <= 0xCB then "E"
    else if 0xCC <= n <= 0xCF then "I"
    else if n == 0xD1 then "N"
    else if 0xD2 <= n <= 0xD6 then "O"
    else if 0xD9 <= n <= 0xDC then "U"
    else if n == 0xDD then "Y"
    else if 0xE0 <= n <= 0xE5 then "a"
    else if n == 0xE7 then "c"
    else if 0xE8 <= n <= 0xEB then "e"
    else if 0xEC <= n <= 0xEF then "i"
    else if n == 0xF1 then "n"
    else if 0xF2 <= n <= 0xF6 then "o"
    else if 0xF9 <= n <= 0xFC then "u"
    else if n == 0xFD || n == 0xFF then "y"
    else []
  }

  /** The ASCII reduction of a whole string, character by character. */
  function ToAscii(s: string): (r: string)
    ensures IsAsciiString(r)
  {
    if s == [] then [] else AsciiFold(s[0]) + ToAscii(s[1..])
  }

  lemma {:induction false} ToAsciiKeepsAscii(s: string)
    requires IsAsciiString(s)
    ensures ToAscii(s) == s
  {
    if s != [] {
      ToAsciiKeepsAscii(s[1..]);
      assert [s[0]] + s[1..] == s;
    }
  }

  /** Every letter is upper case exactly when it does not follow a letter; the
      character before the first one counts as a letter iff `afterLetter`. */
  predicate TitledFrom(s: string, afterLetter: bool) {
    forall i :: 0 <= i < |s| && IsLetter(s[i]) ==> (IsUpper(s[i]) <==> !FollowsLetter(s, i, afterLetter))
  }

  /** Whether position `i` of `s` comes right after a letter. */
  predicate FollowsLetter(s: string, i: nat, afterLetter: bool)
    requires i < |s|
  {
    if i == 0 then afterLetter else IsLetter(s[i - 1])
  }

  predicate Titled(s: string) { TitledFrom(s, false) }

  /** Python's `str.title` on ASCII text, continuing after a character that was
      a letter iff `afterLetter`. */
  function TitleFrom(s: string, afterLetter: bool): (r: string)
    ensures |r| == |s|
    ensures forall i :: 0 <= i < |s| ==>
      ToLower(r[i]) == ToLower(s[i]) && (IsLetter(r[i]) <==> IsLetter(s[i])) && (!IsLetter(s[i]) ==> r[i] == s[i])
    ensures TitledFrom(r, afterLetter)
  {
    if s == [] then []
    else
      var c := s[0];
      var d := if !IsLetter(c) then c else if afterLetter then ToLower(c) else ToUpper(c);
      var rest := TitleFrom(s[1..], IsLetter(c));
      var r := [d] + rest;
      assert forall i :: 1 <= i < |s| ==> r[i] == rest[i - 1] && s[i] == s[1..][i - 1];
      r
  }

  function Title(s: string): (r: string) { TitleFrom(s, false) }

  /** Title-casing text that is already title-cased changes nothing. */
  lemma {:induction false} TitleFixed(s: string, afterLetter: bool)
    requires TitledFrom(s, afterLetter)
    ensures TitleFrom(s, afterLetter) == s
  {
    if s != [] {
      assert TitledFrom(s[1..], IsLetter(s[0])) by {
        forall i | 0 <= i < |s[1..]| && IsLetter(s[1..][i])
          ensures IsUpper(s[1..][i]) <==> !FollowsLetter(s[1..], i, IsLetter(s[0]))
        {
          assert s[1..][i] == s[i + 1];
          assert FollowsLetter(s[1..], i, IsLetter(s[0])) == FollowsLetter(s, i + 1, afterLetter);
        }
      }
      TitleFixed(s[1..], IsLetter(s[0]));
      var d := if !IsLetter(s[0]) then s[0] else if afterLetter then ToLower(s[0]) else ToUpper(s[0]);
      assert IsLetter(s[0]) ==> (IsUpper(s[0]) <==> !afterLetter) by {
        assert FollowsLetter(s, 0, afterLetter) == afterLetter;
      }
      assert d == s[0];
      assert TitleFrom(s, afterLetter) == [d] + TitleFrom(s[1..], IsLetter(s[0]));
      assert [s[0]] + s[1..] == s;
    }
  }

  lemma PlaceholderIsNormal()
    ensures IsAsciiString(Placeholder) && Titled(Placeholder)
    ensures !IsSpace(Placeholder[0]) && !IsSpace(Placeholder[|Placeholder| - 1])
  {
    assert forall i :: 1 <= i < |Placeholder| ==> IsLower(Placeholder[i]);
  }

  /** Stripping ASCII text leaves ASCII text. */
  lemma StripKeepsAscii(a: string)
    requires IsAsciiString(a)
    ensures IsAsciiString(Strip(a))
  {
    var t := Strip(a);
    var i := LeadingSpaces(a);
    assert forall k :: 0 <= k < |t| ==> t[k] == a[i + k];
  }

  /** Title-casing keeps ASCII text ASCII and leaves the first and last
      characters' whitespace status alone. */
  lemma TitleKeepsShape(t: string)
    requires IsAsciiString(t)
    ensures IsAsciiString(Title(t))
    ensures t != [] ==> (IsSpace(Title(t)[0]) <==> IsSpace(t[0])) && (IsSpace(Title(t)[|t| - 1]) <==> IsSpace(t[|t| - 1]))
  {
    var r := Title(t);
    forall k | 0 <= k < |t| ensures IsAscii(r[k]) && (IsSpace(r[k]) <==> IsSpace(t[k])) {
      if !IsLetter(t[k]) {
        assert r[k] == t[k];
      } else {
        assert IsLetter(r[k]);
      }
    }
  }

  /** `normalize_name`. Besides the placeholder for a missing name, the result is
      ASCII, carries no surrounding whitespace, is title-cased, and differs from
      the stripped ASCII reduction of the input only in letter case. */
  function NormalizeName(name: Option<string>): (r: string)
    ensures name.None? ==> r == Placeholder
    ensures IsAsciiString(r)
    ensures r == [] || (!IsSpace(r[0]) && !IsSpace(r[|r| - 1]))
    ensures Titled(r)
    ensures name.Some? ==> Lower(r) == Lower(Strip(ToAscii(name.value)))
  {
    match name
    case None =>
      PlaceholderIsNormal();
      Placeholder
    case Some(s) =>
      var t := Strip(ToAscii(s));
      StripKeepsAscii(ToAscii(s));
      TitleKeepsShape(t);
      var r := Title(t);
      assert Lower(r) == Lower(t);
      r
  }

  /** Normalising a normalised name returns it unchanged. */
  lemma NormalizeNameIdempotent(name: Option<string>)
    ensures NormalizeName(Some(NormalizeName(name))) == NormalizeName(name)
  {
    var r := NormalizeName(name);
    ToAsciiKeepsAscii(r);
    StripUnchanged(r);
    TitleFixed(r, false);
  }
}
