/** Pure code-point transformations of scripts/string_utils.py: removing the
    invisible Unicode Tags block, escaping angle brackets, and locating the
    data-vintage timestamp inside a collection name. */
module StringUtils {
  import opened Wrappers
  import opened Text

  // ---------------------------------------------------------------------
  // remove_invisible_unicode
  // ---------------------------------------------------------------------

  /** First and last code point of the Unicode Tags block, U+E0000..U+E007F. */
  const TagFirst: int := 0xE0000
  const TagLast: int := 0xE007F

  /** Tag code point `c` is decoded to `c - 0xE0000 + 0x20`. */
  const DecodeBase: int := 0x20

  predicate IsTag(c: char) {
    TagFirst <= c as int <= TagLast
  }

  predicate NoTags(s: string) {
    forall i :: 0 <= i < |s| ==> !IsTag(s[i])
  }

  /** The code points the pattern `[\U000E0000-\U000E007F]` finds, in order. */
  function TagHits(s: string): string
  {
    if |s| == 0 then ""
    else (if IsTag(s[0]) then [s[0]] else "") + TagHits(s[1..])
  }

  /** `s` with every tag code point deleted (the pattern's `sub` with ""). */
  function StripTags(s: string): string
  {
    if |s| == 0 then ""
    else (if IsTag(s[0]) then "" else [s[0]]) + StripTags(s[1..])
  }

  /** The visible character a tag code point stands for. */
  function DecodeTag(c: char): (d: char)
    requires IsTag(c)
    ensures DecodeBase <= d as int <= DecodeBase + (TagLast - TagFirst)
  {
    (c as int - TagFirst + DecodeBase) as char
  }

  /** The tag code point that hides a visible character: the inverse of
      `DecodeTag`. */
  function EncodeTag(d: char): (c: char)
    requires DecodeBase <= d as int <= DecodeBase + (TagLast - TagFirst)
    ensures IsTag(c)
  {
    (d as int - DecodeBase + TagFirst) as char
  }

  /** The hidden message `remove_invisible_unicode` reports in its warning. */
  function HiddenMessage(s: string): string
  {
    if |s| == 0 then ""
    else (if IsTag(s[0]) then [DecodeTag(s[0])] else "") + HiddenMessage(s[1..])
  }

  /** What the `UserWarning` says before the hidden message. */
  const WarningPrefix: string := " Hidden message was removed: "

  /** The cleaned text, and the warning text raised when tags were found. */
  datatype Cleaned = Cleaned(text: string, warning: Option<string>)

  lemma {:induction false} StripTagsHasNoTags(s: string)
    ensures NoTags(StripTags(s))
    decreases |s|
  {
    if |s| > 0 {
      StripTagsHasNoTags(s[1..]);
      var h, t := (if IsTag(s[0]) then "" else [s[0]]), StripTags(s[1..]);
      assert StripTags(s) == h + t;
      forall i | 0 <= i < |h + t| ensures !IsTag((h + t)[i]) {
        if i >= |h| { assert (h + t)[i] == t[i - |h|]; }
      }
    }
  }

  /** Stripping splits the input into kept and removed code points: every
      code point goes to exactly one side, tags to the removed one. */
  lemma {:induction false} StripTagsPartition(s: string)
    ensures |StripTags(s)| + |TagHits(s)| == |s|
    ensures forall c :: c in StripTags(s) <==> c in s && !IsTag(c)
    ensures forall c :: c in TagHits(s) <==> c in s && IsTag(c)
    ensures TagHits(s) == "" ==> StripTags(s) == s
  {
    StripTagsLength(s);
    StripTagsNoHits(s);
    forall c ensures (c in StripTags(s) <==> c in s && !IsTag(c)) && (c in TagHits(s) <==> c in s && IsTag(c)) {
      StripTagsMembers(s, c);
    }
  }

  lemma {:induction false} StripTagsLength(s: string)
    ensures |StripTags(s)| + |TagHits(s)| == |s|
    decreases |s|
  {
    if |s| > 0 {
      StripTagsLength(s[1..]);
    }
  }

  lemma {:induction false} StripTagsMembers(s: string, c: char)
    ensures c in StripTags(s) <==> c in s && !IsTag(c)
    ensures c in TagHits(s) <==> c in s && IsTag(c)
    decreases |s|
  {
    if |s| > 0 {
      var t := s[1..];
      StripTagsMembers(t, c);
      assert s == [s[0]] + t;
      if IsTag(s[0]) {
        assert StripTags(s) == StripTags(t) && TagHits(s) == [s[0]] + TagHits(t);
      } else {
        assert StripTags(s) == [s[0]] + StripTags(t) && TagHits(s) == TagHits(t);
      }
    }
  }

  lemma {:induction false} StripTagsNoHits(s: string)
    ensures TagHits(s) == "" ==> StripTags(s) == s
    decreases |s|
  {
    if |s| > 0 && TagHits(s) == "" {
      var t := s[1..];
      assert !IsTag(s[0]) && TagHits(t) == "";
      StripTagsNoHits(t);
      assert s == [s[0]] + t;
    }
  }

  /** `remove_invisible_unicode`: with at least one hit, warns with the
      decoded message and deletes the tag code points; otherwise returns the
      input unchanged and raises no warning. */
  function RemoveInvisibleUnicode(s: string): (r: Cleaned)
    ensures NoTags(r.text)
    ensures r.text == StripTags(s)
    ensures |r.text| == |s| - |TagHits(s)|
    ensures forall c :: c in r.text <==> c in s && !IsTag(c)
    ensures NoTags(s) ==> r == Cleaned(s, None)
    ensures !NoTags(s) ==> r.warning == Some(WarningPrefix + HiddenMessage(s))
  {
    StripTagsHasNoTags(s);
    StripTagsPartition(s);
    NoTagsNoHits(s);
    if |TagHits(s)| > 0 then Cleaned(StripTags(s), Some(WarningPrefix + HiddenMessage(s)))
    else Cleaned(s, None)
  }

  lemma {:induction false} NoTagsNoHits(s: string)
    ensures NoTags(s) <==> TagHits(s) == ""
    decreases |s|
  {
    if |s| > 0 {
      NoTagsNoHits(s[1..]);
      if NoTags(s) {
        assert NoTags(s[1..]) by {
          forall i | 0 <= i < |s[1..]| ensures !IsTag(s[1..][i]) {
            assert s[1..][i] == s[i + 1];
          }
        }
      }
      if !IsTag(s[0]) && NoTags(s[1..]) {
        forall i | 0 <= i < |s| ensures !IsTag(s[i]) {
          if i > 0 { assert s[i] == s[1..][i - 1]; }
        }
      }
    }
  }

  /** Cleaning twice is cleaning once, and the second pass raises no warning. */
  lemma RemoveInvisibleUnicodeIdempotent(s: string)
    ensures RemoveInvisibleUnicode(RemoveInvisibleUnicode(s).text)
         == Cleaned(RemoveInvisibleUnicode(s).text, None)
  {
  }

  /** The warning loses nothing: re-encoding the hidden message gives back
      exactly the deleted tag code points, in order. */
  lemma {:induction false} HiddenMessageRoundTrip(s: string)
    ensures |HiddenMessage(s)| == |TagHits(s)|
    ensures forall k :: 0 <= k < |TagHits(s)| ==>
      DecodeBase <= HiddenMessage(s)[k] as int <= DecodeBase + (TagLast - TagFirst)
      && EncodeTag(HiddenMessage(s)[k]) == TagHits(s)[k]
    decreases |s|
  {
    if |s| > 0 {
      HiddenMessageRoundTrip(s[1..]);
      var h, t := HiddenMessage(s[1..]), TagHits(s[1..]);
      if IsTag(s[0]) {
        forall k | 0 <= k < |TagHits(s)|
          ensures DecodeBase <= HiddenMessage(s)[k] as int <= DecodeBase + (TagLast - TagFirst)
          ensures EncodeTag(HiddenMessage(s)[k]) == TagHits(s)[k]
        {
          if k > 0 {
            assert HiddenMessage(s)[k] == h[k - 1];
            assert TagHits(s)[k] == t[k - 1];
          }
        }
      } else {
        assert HiddenMessage(s) == h && TagHits(s) == t;
      }
    }
  }

  // ---------------------------------------------------------------------
  // escape_tags
  // ---------------------------------------------------------------------

  predicate IsBracket(c: char) {
    c == '<' || c == '>'
  }

  /** What one character becomes: a bracket gains a leading '/'. */
  function EscapeChar(c: char): string
  {
    if IsBracket(c) then ['/', c] else [c]
  }

  /** The character-by-character reference for escaping. */
  function Escaped(s: string): string
  {
    if |s| == 0 then "" else EscapeChar(s[0]) + Escaped(s[1..])
  }

  function CountBrackets(s: string): nat
  {
    if |s| == 0 then 0 else (if IsBracket(s[0]) then 1 else 0) + CountBrackets(s[1..])
  }

  /** Every bracket is immediately preceded by '/'. */
  predicate BracketsEscaped(r: string) {
    forall i :: 0 <= i < |r| && IsBracket(r[i]) ==> i > 0 && r[i - 1] == '/'
  }

  /** Undoing the escape: a '/' directly before a bracket is dropped. */
  function Unescape(r: string): string
    decreases |r|
  {
    if |r| == 0 then ""
    else if |r| >= 2 && r[0] == '/' && IsBracket(r[1]) then [r[1]] + Unescape(r[2..])
    else [r[0]] + Unescape(r[1..])
  }

  /** The two chained `replace` calls agree with the per-character reference. */
  lemma {:induction false} EscapeTagsMatchesReference(s: string)
    ensures Replace(Replace(s, "<", "/<"), ">", "/>") == Escaped(s)
    decreases |s|
  {
    if |s| > 0 {
      var x, rest := s[..1], s[1..];
      assert s == x + rest;
      ReplaceCharConcat(x, rest, '<', "/<");
      ReplaceCharConcat(Replace(x, "<", "/<"), Replace(rest, "<", "/<"), '>', "/>");
      EscapeTagsMatchesReference(rest);
      EscapeOne(s[0]);
      assert x == [s[0]];
    }
  }

  /** The two `replace` calls on a single character. */
  lemma EscapeOne(c: char)
    ensures Replace(Replace([c], "<", "/<"), ">", "/>") == EscapeChar(c)
  {
    if c == '<' {
      assert Replace([c], "<", "/<") == "/<" + Replace("", "<", "/<");
      assert Replace("/<", ">", "/>") == "/<";
    } else if c == '>' {
      assert [c][..1] != "<" && Replace([c], "<", "/<") == [c] + Replace("", "<", "/<");
      assert Replace([c], ">", "/>") == "/>" + Replace("", ">", "/>");
    } else {
      assert [c][..1] != "<" && Replace([c], "<", "/<") == [c] + Replace("", "<", "/<");
      assert [c][..1] != ">" && Replace([c], ">", "/>") == [c] + Replace("", ">", "/>");
    }
  }

  lemma {:induction false} EscapedFacts(s: string)
    ensures |Escaped(s)| == |s| + CountBrackets(s)
    ensures BracketsEscaped(Escaped(s))
    ensures NoTags(s) ==> NoTags(Escaped(s))
  {
    EscapedLength(s);
    EscapedBrackets(s);
    EscapedNoTags(s);
  }

  lemma {:induction false} EscapedLength(s: string)
    ensures |Escaped(s)| == |s| + CountBrackets(s)
    decreases |s|
  {
    if |s| > 0 {
      EscapedLength(s[1..]);
    }
  }

  lemma {:induction false} EscapedBrackets(s: string)
    ensures BracketsEscaped(Escaped(s))
    ensures |Escaped(s)| > 0 ==> !IsBracket(Escaped(s)[0])
    decreases |s|
  {
    if |s| > 0 {
      EscapedBrackets(s[1..]);
      var e, r := EscapeChar(s[0]), Escaped(s[1..]);
      assert Escaped(s) == e + r;
      forall i | 0 <= i < |e + r| && IsBracket((e + r)[i])
        ensures i > 0 && (e + r)[i - 1] == '/'
      {
        if i >= |e| {
          assert (e + r)[i] == r[i - |e|];
          if i > |e| {
            assert (e + r)[i - 1] == r[i - |e| - 1];
          }
        }
      }
    }
  }

  lemma {:induction false} EscapedNoTags(s: string)
    ensures NoTags(s) ==> NoTags(Escaped(s))
    decreases |s|
  {
    if |s| > 0 && NoTags(s) {
      assert NoTags(s[1..]) by {
        forall i | 0 <= i < |s[1..]| ensures !IsTag(s[1..][i]) {
          assert s[1..][i] == s[i + 1];
        }
      }
      EscapedNoTags(s[1..]);
      var e, r := EscapeChar(s[0]), Escaped(s[1..]);
      assert Escaped(s) == e + r;
      forall i | 0 <= i < |e + r| ensures !IsTag((e + r)[i]) {
        if i >= |e| { assert (e + r)[i] == r[i - |e|]; }
      }
    }
  }

  /** Escaping is injective: `Unescape` recovers the input exactly. */
  lemma {:induction false} UnescapeEscaped(s: string)
    ensures Unescape(Escaped(s)) == s
    decreases |s|
  {
    if |s| > 0 {
      UnescapeEscaped(s[1..]);
      EscapedBrackets(s[1..]);
      var r := Escaped(s[1..]);
      if IsBracket(s[0]) {
        assert (['/', s[0]] + r)[2..] == r;
      } else {
        assert ([s[0]] + r)[1..] == r;
        if |r| > 0 {
          assert ([s[0]] + r)[1] == r[0];
        }
      }
      assert s == [s[0]] + s[1..];
    }
  }

  /** `escape_tags`: each '<' becomes "/<" and each '>' becomes "/>"; every
      other character is kept. */
  function EscapeTags(s: string): (r: string)
    ensures |r| == |s| + CountBrackets(s)
    ensures BracketsEscaped(r)
    ensures Unescape(r) == s
    ensures NoTags(s) ==> NoTags(r)
  {
    EscapeTagsMatchesReference(s);
    EscapedFacts(s);
    UnescapeEscaped(s);
    Replace(Replace(s, "<", "/<"), ">", "/>")
  }

  /** `sanitise_string`: tags removed first, then brackets escaped. The
      warning that `remove_invisible_unicode` emits on the way is carried
      in the result's `warning`. */
  function SanitiseString(s: string): (r: Cleaned)
    ensures NoTags(r.text)
    ensures BracketsEscaped(r.text)
    ensures Unescape(r.text) == StripTags(s)
    ensures NoTags(s) ==> Unescape(r.text) == s
    ensures r.warning.None? <==> NoTags(s)
    ensures !NoTags(s) ==> r.warning == Some(WarningPrefix + HiddenMessage(s))
  {
    var c := RemoveInvisibleUnicode(s);
    Cleaned(EscapeTags(c.text), c.warning)
  }

  // ---------------------------------------------------------------------
  // get_vintage_from_str
  // ---------------------------------------------------------------------

  /** One position of a fixed-width regular expression. */
  datatype CharClass = Digit | Lit(c: char) | AnyButNewline

  predicate MatchesClass(k: CharClass, c: char) {
    match k
    case Digit => '0' <= c <= '9'
    case Lit(l) => c == l
    case AnyButNewline => c != '\n'
  }

  /** `\d{4}-\d{2}-\d{2}T\d{2}_\d{2}_\d{2}.\d{6}`, one class per character. */
  const VintagePattern: seq<CharClass> :=
    [Digit, Digit, Digit, Digit, Lit('-'), Digit, Digit, Lit('-'), Digit, Digit,
     Lit('T'), Digit, Digit, Lit('_'), Digit, Digit, Lit('_'), Digit, Digit,
     AnyButNewline, Digit, Digit, Digit, Digit, Digit, Digit]

  const VintageWidth: nat := 26

  predicate VintageAt(s: string, i: nat)
    requires i + VintageWidth <= |s|
  {
    forall k :: 0 <= k < VintageWidth ==> MatchesClass(VintagePattern[k], s[i + k])
  }

  /** `re.search`: the leftmost position at or after `from` where the
      timestamp pattern matches. */
  function FindVintage(s: string, from: nat): (r: Option<nat>)
    decreases |s| - from
    ensures r.Some? ==>
      && from <= r.value && r.value + VintageWidth <= |s|
      && VintageAt(s, r.value)
      && forall j :: from <= j < r.value ==> !VintageAt(s, j)
    ensures r.None? ==> forall j :: from <= j && j + VintageWidth <= |s| ==> !VintageAt(s, j)
  {
    if |s| < from + VintageWidth then None
    else if VintageAt(s, from) then Some(from)
    else FindVintage(s, from + 1)
  }

  /** `get_vintage_from_str` up to the parse: the leftmost matched timestamp
      with its underscores turned into colons. A name without a timestamp
      fails with `TypeError`, as subscripting the missing match does. */
  function VintageFromStr(s: string): (r: Result<string>)
    ensures r.Ok? <==> exists i: nat :: i + VintageWidth <= |s| && VintageAt(s, i)
    ensures r.Err? ==> r.raised == TypeError
    ensures r.Ok? ==>
      && |r.value| == VintageWidth
      && '_' !in r.value
      && r.value[13] == ':' && r.value[16] == ':'
      && exists i: nat :: i + VintageWidth <= |s| && VintageAt(s, i)
           && (forall j: nat :: j < i ==> !VintageAt(s, j))
           && (forall k :: 0 <= k < VintageWidth ==>
                 r.value[k] == if s[i + k] == '_' then ':' else s[i + k])
  {
    match FindVintage(s, 0)
    case None => Err(TypeError)
    case Some(i) =>
      var m := s[i..i + VintageWidth];
      ReplaceCharPointwise(m, '_', ':');
      ReplaceCharRemovesAll(m, '_', ":");
      assert MatchesClass(VintagePattern[13], s[i + 13]);
      assert MatchesClass(VintagePattern[16], s[i + 16]);
      Ok(Replace(m, "_", ":"))
  }
}
