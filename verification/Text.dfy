/** Splitting, joining and percent-encoding of strings; a string is a sequence of bytes, held as characters below 256. */
module Text {
  import opened Options

  predicate HasPrefix(s: string, prefix: string) {
    |prefix| <= |s| && s[..|prefix|] == prefix
  }

  predicate HasSuffix(s: string, suffix: string) {
    |suffix| <= |s| && s[|s| - |suffix|..] == suffix
  }

  /** A prefix is what some rest follows, a suffix what follows some stem. */
  lemma AffixesAre(s: string, affix: string)
    ensures HasPrefix(s, affix) <==> exists rest :: s == affix + rest
    ensures HasSuffix(s, affix) <==> exists stem :: s == stem + affix
  {
    if HasPrefix(s, affix) {
      assert s == affix + s[|affix|..];
    }
    if HasSuffix(s, affix) {
      assert s == s[..|s| - |affix|] + affix;
    }
  }

  ghost predicate Bytes(s: string) {
    forall i :: 0 <= i < |s| ==> s[i] as int < 256
  }

  function Join(parts: seq<string>, sep: char): string {
    if parts == [] then ""
    else if |parts| == 1 then parts[0]
    else parts[0] + [sep] + Join(parts[1..], sep)
  }

  /** The pieces between the separators; always at least one. */
  function Split(s: string, sep: char): (parts: seq<string>)
    ensures |parts| >= 1
  {
    if s == "" then [""]
    else
      var others := Split(s[1..], sep);
      if s[0] == sep then [""] + others else [[s[0]] + others[0]] + others[1..]
  }

  ghost predicate Plain(parts: seq<string>, sep: char) {
    forall i :: 0 <= i < |parts| ==> sep !in parts[i]
  }

  /** Joining what was split gives the string back, and no piece contains the separator. */
  lemma {:induction false} JoinSplit(s: string, sep: char)
    ensures Join(Split(s, sep), sep) == s && Plain(Split(s, sep), sep)
  {
    if s != "" {
      JoinSplit(s[1..], sep);
      var others := Split(s[1..], sep);
      if s[0] == sep {
        assert ([""] + others)[1..] == others;
      } else {
        var all := [[s[0]] + others[0]] + others[1..];
        assert all[1..] == others[1..];
        assert Join(all, sep) == [s[0]] + Join(others, sep);
      }
    }
  }

  lemma {:induction false} SplitPiece(piece: string, sep: char)
    requires sep !in piece
    ensures Split(piece, sep) == [piece]
  {
    if piece != "" {
      assert piece[0] in piece && [piece[0]] + piece[1..] == piece;
      SplitPiece(piece[1..], sep);
    }
  }

  lemma {:induction false} SplitFirst(piece: string, rest: string, sep: char)
    requires sep !in piece
    ensures Split(piece + [sep] + rest, sep) == [piece] + Split(rest, sep)
  {
    var s := piece + [sep] + rest;
    if piece == "" {
      assert s[1..] == rest;
    } else {
      assert piece[0] in piece && [piece[0]] + piece[1..] == piece;
      SplitFirst(piece[1..], rest, sep);
      assert s[1..] == piece[1..] + [sep] + rest;
    }
  }

  /** Splitting what was joined gives the pieces back. */
  lemma {:induction false} SplitJoin(parts: seq<string>, sep: char)
    requires parts != [] && Plain(parts, sep)
    ensures Split(Join(parts, sep), sep) == parts
  {
    if |parts| == 1 {
      SplitPiece(parts[0], sep);
    } else {
      SplitFirst(parts[0], Join(parts[1..], sep), sep);
      SplitJoin(parts[1..], sep);
    }
  }

  /** Without the given character at either end. */
  function Trim(s: string, c: char): string {
    if s == "" then ""
    else if s[0] == c then Trim(s[1..], c)
    else if s[|s| - 1] == c then Trim(s[..|s| - 1], c)
    else s
  }

  /** Joined pieces that are not empty neither start nor end with the separator. */
  lemma {:induction false} JoinedEnds(parts: seq<string>, sep: char)
    requires parts != [] && Plain(parts, sep) && "" !in parts
    ensures var s := Join(parts, sep); s != "" && s[0] != sep && s[|s| - 1] != sep
  {
    assert parts[0] != "" && parts[0][0] in parts[0];
    if |parts| == 1 {
      assert parts[0][|parts[0]| - 1] in parts[0];
    } else {
      JoinedEnds(parts[1..], sep);
    }
  }

  /** White space as Unicode defines it. */
  predicate IsSpace(c: char) {
    c in "\t\n\r \U{0B}\U{0C}\U{85}\U{A0}\U{1680}\U{2028}\U{2029}\U{202F}\U{205F}\U{3000}"
    || '\U{2000}' <= c <= '\U{200A}'
  }

  /** The white space, by code point. */
  lemma SpacesAre(c: char)
    ensures IsSpace(c) <==>
      || 9 <= c as int <= 13 || 0x2000 <= c as int <= 0x200A
      || c as int in {32, 133, 160, 5760, 8232, 8233, 8239, 8287, 12288}
  {
  }

  function TrimSpace(s: string): string {
    if s == "" then ""
    else if IsSpace(s[0]) then TrimSpace(s[1..])
    else if IsSpace(s[|s| - 1]) then TrimSpace(s[..|s| - 1])
    else s
  }

  /** Lower case as far as ASCII letters come of it: the two other characters that do are the dotted I and the Kelvin sign. */
  function LowerChar(c: char): char {
    if 'A' <= c <= 'Z' then c - 'A' + 'a' else if c == '\U{130}' then 'i' else if c == '\U{212A}' then 'k' else c
  }

  /** By code point: the 26 capitals move up by 32, the two characters named above become letters, all others stay. */
  lemma LowerIs(c: char)
    ensures LowerChar(c) as int ==
      if 65 <= c as int <= 90 then c as int + 32
      else if c as int == 304 then 105 else if c as int == 8490 then 107 else c as int
  {
  }

  function ToLower(s: string): string {
    seq(|s|, i requires 0 <= i < |s| => LowerChar(s[i]))
  }

  /** Strings of hexadecimal digits that stand for the same digits. */
  predicate SameDigits(s: string, t: string) {
    |s| == |t| && forall i :: 0 <= i < |s| ==> HexValue(s[i]).Some? && HexValue(s[i]) == HexValue(t[i])
  }

  lemma LowerDigit(c: char, d: char)
    requires HexValue(d).Some?
    ensures LowerChar(c) == LowerChar(d) <==> HexValue(c) == HexValue(d)
  {
  }

  /** Lower-casing identifies a string with one of hexadecimal digits exactly when their digits have the same values. */
  lemma FoldsExactlyDigits(s: string, t: string)
    requires forall i :: 0 <= i < |t| ==> HexValue(t[i]).Some?
    ensures ToLower(s) == ToLower(t) <==> SameDigits(s, t)
  {
    hide LowerChar, HexValue;
    if ToLower(s) == ToLower(t) {
      assert |ToLower(s)| == |s| && |ToLower(t)| == |t|;
      forall i | 0 <= i < |s| ensures HexValue(s[i]).Some? && HexValue(s[i]) == HexValue(t[i]) {
        assert ToLower(s)[i] == ToLower(t)[i];
        LowerDigit(s[i], t[i]);
      }
    }
    if SameDigits(s, t) {
      forall i | 0 <= i < |s| ensures LowerChar(s[i]) == LowerChar(t[i]) {
        LowerDigit(s[i], t[i]);
      }
    }
  }

  /** The letter's other case. */
  function UpperChar(c: char): char {
    if 'a' <= c <= 'z' then c - 'a' + 'A' else c
  }

  /** A string is written in these lower-case characters, each in either case. */
  predicate Spells(s: string, lower: string) {
    |s| == |lower| && forall i :: 0 <= i < |s| ==> s[i] == lower[i] || s[i] == UpperChar(lower[i])
  }

  predicate LowerCase(s: string) {
    forall i :: 0 <= i < |s| ==> s[i] < 128 as char && !('A' <= s[i] <= 'Z')
  }

  /** Whatever the case of its letters, a name is read in lower case; one in lower case stays as it is. */
  lemma LowerReads(s: string, lower: string)
    requires LowerCase(lower) && Spells(s, lower)
    ensures ToLower(s) == lower
  {
    forall i | 0 <= i < |s| ensures LowerChar(s[i]) == lower[i] {
      if s[i] != lower[i] {
        assert 'a' <= lower[i] <= 'z';
      }
    }
  }

  predicate AllSpace(s: string) {
    forall i :: 0 <= i < |s| ==> IsSpace(s[i])
  }

  /** Trimming cuts exactly the white space off both ends. */
  lemma {:induction false} TrimSpaceCuts(s: string) returns (left: string, right: string)
    ensures s == left + TrimSpace(s) + right && AllSpace(left) && AllSpace(right)
    ensures var t := TrimSpace(s); t != "" ==> !IsSpace(t[0]) && !IsSpace(t[|t| - 1])
  {
    hide IsSpace, AllSpace;
    left, right := "", "";
    NoSpaceAtAll();
    if s != "" {
      if IsSpace(s[0]) {
        left, right := TrimSpaceCuts(s[1..]);
        assert s == [s[0]] + s[1..];
        SpaceMore(s[0], left);
        left := [s[0]] + left;
      } else if IsSpace(s[|s| - 1]) {
        left, right := TrimSpaceCuts(s[..|s| - 1]);
        assert s == s[..|s| - 1] + [s[|s| - 1]];
        SpaceMore(s[|s| - 1], right);
        right := right + [s[|s| - 1]];
      }
    }
  }

  lemma NoSpaceAtAll()
    ensures AllSpace("")
  {
  }

  lemma SpaceMore(c: char, s: string)
    requires IsSpace(c) && AllSpace(s)
    ensures AllSpace([c] + s) && AllSpace(s + [c])
  {
    hide IsSpace;
  }

  /** What neither starts nor ends with space stays when spaces are put around it. */
  lemma {:induction false} TrimSpaceOf(left: string, t: string, right: string)
    requires AllSpace(left) && AllSpace(right) && t != "" && !IsSpace(t[0]) && !IsSpace(t[|t| - 1])
    ensures TrimSpace(left + t + right) == t
    decreases |left| + |right|
  {
    hide IsSpace;
    var s := left + t + right;
    if left != "" {
      assert s[1..] == left[1..] + t + right && s[0] == left[0];
      TrimSpaceOf(left[1..], t, right);
    } else if right != "" {
      assert s[..|s| - 1] == left + t + right[..|right| - 1];
      assert s[0] == t[0] && s[|s| - 1] == right[|right| - 1];
      TrimSpaceOf(left, t, right[..|right| - 1]);
    } else {
      assert s == t;
    }
  }

  /** What comes before the separator and, if there is one, after it. */
  function Cut(s: string, sep: char): (parts: (string, Option<string>))
    ensures sep !in parts.0 && (parts.1.None? <==> sep !in s)
    ensures s == parts.0 + if parts.1.None? then "" else [sep] + parts.1.value
  {
    if s == "" then ("", None)
    else if s[0] == sep then ("", Some(s[1..]))
    else
      var (before, after) := Cut(s[1..], sep);
      ([s[0]] + before, after)
  }

  // ---- percent-encoding of one path segment ----

  predicate Unescaped(c: char) {
    'a' <= c <= 'z' || 'A' <= c <= 'Z' || '0' <= c <= '9' || c in "-_.~$&+:=@"
  }

  function HexDigit(n: int): char {
    if 0 <= n < 10 then '0' + n as char else if 10 <= n < 16 then 'A' + (n - 10) as char else '0'
  }

  function HexValue(c: char): Option<int> {
    if '0' <= c <= '9' then Some(c as int - '0' as int)
    else if 'a' <= c <= 'f' then Some(c as int - 'a' as int + 10)
    else if 'A' <= c <= 'F' then Some(c as int - 'A' as int + 10)
    else None
  }

  function PathEscape(s: string): string {
    if s == "" then ""
    else EscapeChar(s[0]) + PathEscape(s[1..])
  }

  function EscapeChar(c: char): string {
    if Unescaped(c) then [c] else ['%', HexDigit(c as int / 16), HexDigit(c as int % 16)]
  }

  /** What stays as it is in a path segment: letters, digits and - _ . ~ $ & + : = @ */
  ghost predicate StaysPlain(c: char) {
    || 97 <= c as int <= 122 || 65 <= c as int <= 90 || 48 <= c as int <= 57
    || c as int in {45, 95, 46, 126, 36, 38, 43, 58, 61, 64}
  }

  /** One character is left alone exactly if it stays plain; any other byte becomes a percent sign and its two
      hexadecimal digits, in capitals. */
  lemma EscapesExactly(c: char)
    requires c as int < 256
    ensures StaysPlain(c) ==> EscapeChar(c) == [c]
    ensures !StaysPlain(c) ==>
      var e := EscapeChar(c);
      && |e| == 3 && e[0] == '%' && HexValue(e[1]) == Some(c as int / 16) && HexValue(e[2]) == Some(c as int % 16)
      && !('a' <= e[1] <= 'f') && !('a' <= e[2] <= 'f')
  {
    assert Unescaped(c) <==> StaysPlain(c);
    HexRoundTrip(c as int / 16);
    HexRoundTrip(c as int % 16);
  }

  /** Nothing when a percent sign is not followed by two hexadecimal digits. */
  function PathUnescape(s: string): Option<string> {
    if s == "" then Some("")
    else if s[0] != '%' then
      var rest := PathUnescape(s[1..]);
      if rest.None? then None else Some([s[0]] + rest.value)
    else if |s| < 3 || HexValue(s[1]).None? || HexValue(s[2]).None? then None
    else
      var rest := PathUnescape(s[3..]);
      if rest.None? then None else Some([(HexValue(s[1]).value * 16 + HexValue(s[2]).value) as char] + rest.value)
  }

  lemma HexRoundTrip(n: int)
    requires 0 <= n < 16
    ensures HexValue(HexDigit(n)) == Some(n)
  {
  }

  lemma UnescapePlain(c: char, rest: string)
    requires c != '%' && PathUnescape(rest).Some?
    ensures PathUnescape([c] + rest) == Some([c] + PathUnescape(rest).value)
  {
    assert ([c] + rest)[1..] == rest;
  }

  lemma UnescapeHex(c: char, rest: string)
    requires c as int < 256 && PathUnescape(rest).Some?
    ensures PathUnescape(['%', HexDigit(c as int / 16), HexDigit(c as int % 16)] + rest)
         == Some([c] + PathUnescape(rest).value)
  {
    hide HexDigit, HexValue;
    var high, low := c as int / 16, c as int % 16;
    HexRoundTrip(high);
    HexRoundTrip(low);
    var s := ['%', HexDigit(high), HexDigit(low)] + rest;
    assert s[0] == '%' && s[1] == HexDigit(high) && s[2] == HexDigit(low) && s[3..] == rest;
    assert high * 16 + low == c as int;
  }

  lemma UnescapeChar(c: char, rest: string)
    requires c as int < 256 && PathUnescape(rest).Some?
    ensures PathUnescape(EscapeChar(c) + rest) == Some([c] + PathUnescape(rest).value)
  {
    hide PathUnescape, HexDigit;
    if Unescaped(c) {
      UnescapePlain(c, rest);
    } else {
      UnescapeHex(c, rest);
    }
  }

  /** Decoding undoes encoding, and goes on with what follows. */
  lemma {:induction false} UnescapeEscaped(s: string, rest: string)
    requires Bytes(s) && PathUnescape(rest).Some?
    ensures PathUnescape(PathEscape(s) + rest) == Some(s + PathUnescape(rest).value)
  {
    hide PathUnescape, EscapeChar;
    if s == "" {
      assert PathEscape(s) + rest == rest;
      assert s + PathUnescape(rest).value == PathUnescape(rest).value;
    } else {
      UnescapeEscaped(s[1..], rest);
      var after := PathEscape(s[1..]) + rest;
      assert PathEscape(s) + rest == EscapeChar(s[0]) + after;
      hide PathEscape;
      UnescapeChar(s[0], after);
      assert [s[0]] + (s[1..] + PathUnescape(rest).value) == s + PathUnescape(rest).value;
    }
  }

  ghost function Escaped(parts: seq<string>): seq<string> {
    seq(|parts|, i requires 0 <= i < |parts| => PathEscape(parts[i]))
  }

  /** Decoding an encoded path as a whole gives the path. */
  lemma {:induction false} UnescapePath(parts: seq<string>)
    requires forall i :: 0 <= i < |parts| ==> Bytes(parts[i])
    ensures PathUnescape(Join(Escaped(parts), '/')) == Some(Join(parts, '/'))
  {
    hide PathUnescape, PathEscape, Bytes;
    if |parts| == 0 {
      NothingToUnescape();
    } else if |parts| == 1 {
      NothingToUnescape();
      UnescapeEscaped(parts[0], "");
      assert PathEscape(parts[0]) + "" == PathEscape(parts[0]) && parts[0] + "" == parts[0];
    } else {
      UnescapePath(parts[1..]);
      assert Escaped(parts)[1..] == Escaped(parts[1..]);
      var rest, after := Join(Escaped(parts[1..]), '/'), Join(parts[1..], '/');
      assert Join(Escaped(parts), '/') == PathEscape(parts[0]) + (['/'] + rest);
      assert Join(parts, '/') == parts[0] + (['/'] + after);
      hide Join, Escaped;
      UnescapePlain('/', rest);
      UnescapeEscaped(parts[0], ['/'] + rest);
    }
  }

  lemma NothingToUnescape()
    ensures PathUnescape("") == Some("")
  {
  }
}
