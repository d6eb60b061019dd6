// Domain names: label sequences, their presentation form, and the names of static records (src/util.rs).
//
// A name is a sequence of labels and a flag that tells whether it was written with a final dot. Names are compared
// by their lower-case labels (section 2.3.3 of RFC 1035); the flag takes no part in that comparison, which is what
// lets the zone "example.com" answer the query for "example.com.".

module Names {
  import opened Wrappers

  datatype DomainName = DomainName(labels: seq<string>, fqdn: bool)

  /** Labels in lower case: the form under which zones and static records are stored and looked up. */
  type LowerName = seq<string>

  datatype NameError = BadLabel | NameTooLong

  predicate PlainChar(c: char) {
    'a' <= c <= 'z' || 'A' <= c <= 'Z' || '0' <= c <= '9' || c == '-' || c == '_'
  }

  /** A label in plain characters that does not start with a hyphen, of the size section 2.3.4 of RFC 1035 allows. */
  predicate ValidLabel(piece: string) {
    1 <= |piece| <= 63 && piece[0] != '-' && forall i | 0 <= i < |piece| :: PlainChar(piece[i])
  }

  predicate ValidLabels(labels: seq<string>) {
    forall i | 0 <= i < |labels| :: ValidLabel(labels[i])
  }

  /** The size of a name on the wire: a length octet before every label, and the root's. */
  function WireLength(labels: seq<string>): nat {
    if labels == [] then 1 else 1 + |labels[0]| + WireLength(labels[1..])
  }

  predicate ValidName(labels: seq<string>) {
    ValidLabels(labels) && WireLength(labels) <= 255
  }

  /** The same character, or one letter in its two cases. */
  predicate SameLetter(a: char, b: char) {
    || a == b
    || ('a' <= a <= 'z' && b as int == a as int - 32)
    || ('a' <= b <= 'z' && a as int == b as int - 32)
  }

  /** The same text up to the case of its letters. */
  predicate SameText(s: string, t: string) {
    |s| == |t| && forall i | 0 <= i < |s| :: SameLetter(s[i], t[i])
  }

  /** The same labels up to the case of their letters. */
  predicate SameName(labels: seq<string>, other: seq<string>) {
    |labels| == |other| && forall i | 0 <= i < |labels| :: SameText(labels[i], other[i])
  }

  predicate NoUpper(s: string) {
    forall i | 0 <= i < |s| :: !('A' <= s[i] <= 'Z')
  }

  function LowerChar(c: char): (r: char)
    ensures !('A' <= r <= 'Z') && SameLetter(r, c)
  {
    if 'A' <= c <= 'Z' then (c as int + 32) as char else c
  }

  function LowerText(s: string): (r: string)
    ensures |r| == |s| && forall i | 0 <= i < |s| :: r[i] == LowerChar(s[i])
  {
    seq(|s|, i requires 0 <= i < |s| => LowerChar(s[i]))
  }

  function Lower(labels: seq<string>): (r: LowerName)
    ensures |r| == |labels| && forall i | 0 <= i < |labels| :: r[i] == LowerText(labels[i])
  {
    seq(|labels|, i requires 0 <= i < |labels| => LowerText(labels[i]))
  }

  /** Two texts have one lower-case form exactly when they are the same up to case. */
  lemma LowerTextFolds(s: string, t: string)
    ensures LowerText(s) == LowerText(t) <==> SameText(s, t)
  {
    hide LowerText;
    if LowerText(s) == LowerText(t) {
      forall i | 0 <= i < |s|
        ensures SameLetter(s[i], t[i])
      {
        assert LowerText(s)[i] == LowerText(t)[i];
      }
    }
  }

  /** The lower-case form is the text itself with its letters in lower case, and the only such text. */
  lemma LowerTextIs(s: string, t: string)
    ensures LowerText(s) == t <==> SameText(s, t) && NoUpper(t)
  {
    hide LowerText;
    LowerTextFolds(s, t);
    if NoUpper(t) {
      assert LowerText(t) == t;
    }
  }

  /** Two names have one lower-case form exactly when they are the same up to case. */
  lemma LowerFolds(labels: seq<string>, other: seq<string>)
    ensures Lower(labels) == Lower(other) <==> SameName(labels, other)
  {
    hide LowerText, SameText, Lower;
    forall i | 0 <= i < |labels| && i < |other|
      ensures Lower(labels)[i] == Lower(other)[i] <==> SameText(labels[i], other[i])
    {
      LowerTextFolds(labels[i], other[i]);
    }
  }

  /** The lower-case form of a name is that name up to case, without an upper-case letter, and the only such name. */
  lemma LowerIs(labels: seq<string>, lower: LowerName)
    ensures Lower(labels) == lower
            <==> SameName(labels, lower) && forall i | 0 <= i < |lower| :: NoUpper(lower[i])
  {
    hide LowerText, SameText, Lower, NoUpper;
    forall i | 0 <= i < |labels| && i < |lower|
      ensures Lower(labels)[i] == lower[i] <==> SameText(labels[i], lower[i]) && NoUpper(lower[i])
    {
      LowerTextIs(labels[i], lower[i]);
    }
  }

  // ---- Presentation form ----

  function Join(labels: seq<string>): string {
    if labels == [] then ""
    else if |labels| == 1 then labels[0]
    else labels[0] + "." + Join(labels[1..])
  }

  function Display(name: DomainName): string {
    Join(name.labels) + (if name.fqdn then "." else "")
  }

  /** The pieces with c put before the first of them. */
  function Prepend(c: char, pieces: seq<string>): (r: seq<string>)
    requires pieces != []
    ensures Join(r) == [c] + Join(pieces)
    ensures |r| == |pieces| && r[0] == [c] + pieces[0] && r[1..] == pieces[1..]
  {
    [[c] + pieces[0]] + pieces[1..]
  }

  /** The pieces of s between its dots. */
  function Split(s: string): (pieces: seq<string>)
    ensures |pieces| >= 1
    ensures Join(pieces) == s
    ensures forall i | 0 <= i < |pieces| :: '.' !in pieces[i]
  {
    if s == "" then [""]
    else
      var rest := Split(s[1..]);
      if s[0] == '.' then [""] + rest
      else
        assert s == [s[0]] + s[1..];
        Prepend(s[0], rest)
  }

  /** The name with these labels, if they are valid and not too long together. */
  function Checked(labels: seq<string>, fqdn: bool): Result<DomainName, NameError> {
    if !ValidLabels(labels) then Err(BadLabel)
    else if WireLength(labels) > 255 then Err(NameTooLong)
    else Ok(DomainName(labels, fqdn))
  }

  /** `Name::from_str`, for texts without escapes: a final dot marks a full name and an empty label is an error. */
  function FromStr(s: string): Result<DomainName, NameError> {
    if s == "." then Ok(DomainName([], true))
    else
      var pieces := Split(s);
      var last := |pieces| - 1;
      if pieces[last] == "" then Checked(pieces[..last], s != "") else Checked(pieces, false)
  }

  lemma SplitChar(s: string)
    requires s != ""
    ensures Split(s) == if s[0] == '.' then [""] + Split(s[1..]) else Prepend(s[0], Split(s[1..]))
  {
    hide Join;
  }

  lemma PrependFirst(c: char, piece: string, pieces: seq<string>)
    ensures Prepend(c, [piece] + pieces) == [[c] + piece] + pieces
  {
    hide Join;
  }

  lemma {:induction false} SplitDot(piece: string, rest: string)
    requires '.' !in piece
    ensures Split(piece + "." + rest) == [piece] + Split(rest)
  {
    hide Join, Split, Prepend;
    var s := piece + "." + rest;
    SplitChar(s);
    if piece == "" {
      assert s[1..] == rest;
    } else {
      SplitDot(piece[1..], rest);
      assert s[1..] == piece[1..] + "." + rest;
      PrependFirst(piece[0], piece[1..], Split(rest));
      assert piece == [piece[0]] + piece[1..];
    }
  }

  lemma {:induction false} SplitLabel(piece: string)
    requires '.' !in piece
    ensures Split(piece) == [piece]
  {
    if piece != "" {
      SplitLabel(piece[1..]);
      assert piece == [piece[0]] + piece[1..];
    }
  }

  lemma {:induction false} SplitJoin(labels: seq<string>)
    requires labels != [] && forall i | 0 <= i < |labels| :: '.' !in labels[i]
    ensures Split(Join(labels)) == labels
  {
    if |labels| == 1 {
      SplitLabel(labels[0]);
    } else {
      SplitJoin(labels[1..]);
      SplitDot(labels[0], Join(labels[1..]));
    }
  }

  lemma {:induction false} JoinConcat(a: seq<string>, b: seq<string>)
    requires a != [] && b != []
    ensures Join(a + b) == Join(a) + "." + Join(b)
  {
    if |a| == 1 {
      assert (a + b)[1..] == b;
    } else {
      JoinConcat(a[1..], b);
      assert (a + b)[1..] == a[1..] + b;
      assert Join(a + b) == a[0] + "." + (Join(a[1..]) + "." + Join(b));
    }
  }

  lemma JoinOne(piece: string)
    ensures Join([piece]) == piece
  {
  }

  lemma ValidLabelHasNoDot(piece: string)
    requires ValidLabel(piece)
    ensures '.' !in piece && piece != ""
  {
  }

  /** A text made of dot-free pieces, the last one not empty, parses as those pieces; with a final dot, as a full name. */
  lemma FromStrJoin(labels: seq<string>, fqdn: bool)
    requires labels != [] && labels[|labels| - 1] != ""
    requires forall i | 0 <= i < |labels| :: '.' !in labels[i]
    ensures FromStr(Display(DomainName(labels, fqdn))) == Checked(labels, fqdn)
  {
    hide Checked, Join;
    SplitJoin(labels);
    assert Split("") == [""];
    assert Join(labels) != "";
    if fqdn {
      JoinConcat(labels, [""]);
      JoinOne("");
      assert Join(labels) + "." + "" == Join(labels) + ".";
      SplitJoin(labels + [""]);
      assert (labels + [""])[..|labels|] == labels;
    } else {
      assert Join(labels) + "" == Join(labels);
      assert Split(".") == [""] + Split("."[1..]) == ["", ""];
    }
  }

  /** Parsing undoes printing on every name, the root and the empty name included. */
  lemma DisplayFromStr(name: DomainName)
    requires ValidName(name.labels)
    ensures FromStr(Display(name)) == Ok(name)
  {
    if name.labels != [] {
      forall i | 0 <= i < |name.labels|
        ensures '.' !in name.labels[i] && name.labels[i] != ""
      {
        ValidLabelHasNoDot(name.labels[i]);
      }
      FromStrJoin(name.labels, name.fqdn);
    }
  }

  lemma JoinedText(s: string)
    requires FromStr(s).Ok?
    ensures Display(FromStr(s).value) == s && ValidName(FromStr(s).value.labels)
  {
    if s == "" {
      assert Split(s) == [""];
    } else if s != "." {
      var pieces := Split(s);
      var n := |pieces| - 1;
      if pieces[n] == "" {
        assert pieces == pieces[..n] + [""];
        if n > 0 {
          JoinConcat(pieces[..n], [""]);
          JoinOne("");
        }
      }
    }
  }

  /** A text parses as a name exactly when it is the printed form of that name and the name is valid. */
  lemma FromStrExactly(s: string, name: DomainName)
    ensures FromStr(s) == Ok(name) <==> ValidName(name.labels) && s == Display(name)
  {
    if FromStr(s) == Ok(name) {
      JoinedText(s);
    }
    if ValidName(name.labels) {
      DisplayFromStr(name);
    }
  }

  /** A name's size on the wire is that of its text and two octets more: the first length and the root's. */
  lemma {:induction false} WireLengthOfText(labels: seq<string>)
    ensures WireLength(labels) == if labels == [] then 1 else |Join(labels)| + 2
  {
    if |labels| == 1 {
      assert WireLength(labels[1..]) == 1;
    } else if labels != [] {
      WireLengthOfText(labels[1..]);
    }
  }

  /** A name of valid labels is valid exactly when its text is at most 253 characters long; a label of letters, when
      it has 1 to 63. */
  lemma Limits(labels: seq<string>, n: nat)
    ensures ValidName(labels) <==>
            (forall i | 0 <= i < |labels| :: ValidLabel(labels[i])) && (labels != [] ==> |Join(labels)| <= 253)
    ensures ValidLabel(seq(n, _ => 'a')) <==> 1 <= n <= 63
  {
    WireLengthOfText(labels);
  }

  // ---- Names of static records ----

  /** `render_record_name`: the key put before the zone's text and parsed again; "@" stands for the zone itself. */
  function RenderRecordName(key: string, zone: DomainName): Result<DomainName, NameError> {
    if key == "@" then Ok(zone) else FromStr(key + "." + Display(zone))
  }

  /** In a zone that has labels, a key renders to its own labels put before the zone's, and fails exactly when those
      labels do not make a valid name. */
  lemma RenderedName(key: string, zone: DomainName)
    requires key != "@" && zone.labels != [] && ValidName(zone.labels)
    ensures RenderRecordName(key, zone) == Checked(Split(key) + zone.labels, zone.fqdn)
  {
    var labels := Split(key) + zone.labels;
    JoinConcat(Split(key), zone.labels);
    assert key + "." + Display(zone) == Display(DomainName(labels, zone.fqdn));
    ValidLabelHasNoDot(zone.labels[|zone.labels| - 1]);
    forall i | 0 <= i < |labels|
      ensures '.' !in labels[i]
    {
      if i >= |Split(key)| {
        ValidLabelHasNoDot(zone.labels[i - |Split(key)|]);
      }
    }
    FromStrJoin(labels, zone.fqdn);
  }

  /** In the root zone, written ".", only the key "@" renders: any other key would put an empty label in the name. */
  lemma RootZoneRendersNoKey(key: string)
    ensures RenderRecordName(key, DomainName([], true)).Ok? <==> key == "@"
  {
    if key != "@" {
      var s := key + "." + ".";
      JoinConcat(Split(key), ["", ""]);
      assert Join(["", ""]) == "." by {
        assert ["", ""][1..] == [""];
      }
      SplitJoin(Split(key) + ["", ""]);
      assert s == Join(Split(key) + ["", ""]);
      assert key + "." + Display(DomainName([], true)) == s && s != ".";
      var labels := Split(s)[..|Split(s)| - 1];
      assert labels[|Split(key)|] == "" && !ValidLabels(labels);
    }
  }

  predicate IsSuffix(short: seq<string>, long: seq<string>) {
    |short| <= |long| && long[|long| - |short|..] == short
  }

  /** Every static record lies in its zone. */
  lemma RenderedInZone(key: string, zone: DomainName)
    requires ValidName(zone.labels) && RenderRecordName(key, zone).Ok?
    ensures IsSuffix(zone.labels, RenderRecordName(key, zone).value.labels)
  {
    if key != "@" && zone.labels != [] {
      RenderedName(key, zone);
    }
  }

  lemma {:induction false} LowerSplit(s: string)
    ensures Lower(Split(s)) == Split(LowerText(s))
  {
    hide Join;
    if s == "" {
      assert LowerText("") == "";
    } else {
      LowerSplit(s[1..]);
      assert LowerText(s)[1..] == LowerText(s[1..]);
      var rest := Split(s[1..]);
      if s[0] == '.' {
        assert Lower([""] + rest) == [""] + Lower(rest);
      } else {
        LowerPrepend(s[0], rest);
      }
    }
  }

  lemma LowerPrepend(c: char, pieces: seq<string>)
    requires pieces != []
    ensures Lower(Prepend(c, pieces)) == Prepend(LowerChar(c), Lower(pieces))
  {
    assert LowerText([c] + pieces[0]) == [LowerChar(c)] + LowerText(pieces[0]);
    var r := Prepend(c, pieces);
    forall i | 0 <= i < |r|
      ensures Lower(r)[i] == Prepend(LowerChar(c), Lower(pieces))[i]
    {
      assert i > 0 ==> r[i] == r[1..][i - 1];
    }
  }

  /** In the zone of the empty text, the empty key renders to the root and any other key to its own labels. */
  lemma RenderedInEmptyZone(key: string)
    requires key != "@"
    ensures RenderRecordName(key, DomainName([], false))
            == if key == "" then Ok(DomainName([], true)) else Checked(Split(key), true)
  {
    hide Checked, Join;
    JoinConcat(Split(key), [""]);
    JoinOne("");
    SplitJoin(Split(key) + [""]);
    assert key + "." + "" == key + ".";
    assert Split(key + ".") == Split(key) + [""] && (Split(key) + [""])[..|Split(key)|] == Split(key);
    NoLabelsPrintNothing();
    assert RenderRecordName(key, DomainName([], false)) == FromStr(key + ".");
    assert key != "" ==> key + "." != ".";
  }

  lemma NoLabelsPrintNothing()
    ensures Display(DomainName([], false)) == ""
  {
  }

  lemma KeysOfNoLabels(key: string, other: string, zone: DomainName)
    requires zone.labels == [] && RenderRecordName(key, zone).Ok? && RenderRecordName(other, zone).Ok?
    ensures Lower(RenderRecordName(key, zone).value.labels) == Lower(RenderRecordName(other, zone).value.labels)
            <==> LowerText(key) == LowerText(other) || {key, other} == {"@", ""}
  {
    hide FromStr, RenderRecordName, ValidLabels, WireLength, Join;
    if zone.fqdn {
      RootZoneRendersNoKey(key);
      RootZoneRendersNoKey(other);
    } else {
      NameInEmptyZone(key);
      NameInEmptyZone(other);
      LowerAt(key);
      LowerAt(other);
      LowerSplit(key);
      LowerSplit(other);
      assert Join(Split(LowerText(key))) == LowerText(key) && Join(Split(LowerText(other))) == LowerText(other);
    }
  }

  lemma NameInEmptyZone(key: string)
    requires RenderRecordName(key, DomainName([], false)).Ok?
    ensures RenderRecordName(key, DomainName([], false)).value.labels == if key in {"@", ""} then [] else Split(key)
  {
    hide FromStr;
    if key != "@" {
      RenderedInEmptyZone(key);
    }
  }

  /** Two keys of one zone give the same name exactly when they agree up to case; only in the zone of the empty text
      do "@" and the empty key agree as well. */
  lemma RenderedNameInjective(key: string, other: string, zone: DomainName)
    requires ValidName(zone.labels)
    requires RenderRecordName(key, zone).Ok? && RenderRecordName(other, zone).Ok?
    ensures SameName(RenderRecordName(key, zone).value.labels, RenderRecordName(other, zone).value.labels)
            <==> SameText(key, other) || (zone.labels == [] && {key, other} == {"@", ""})
  {
    hide FromStr, ValidLabels, WireLength, SameName, SameText, Lower, LowerText;
    LowerFolds(RenderRecordName(key, zone).value.labels, RenderRecordName(other, zone).value.labels);
    LowerTextFolds(key, other);
    LowerSplit(key);
    LowerSplit(other);
    if zone.labels == [] {
      KeysOfNoLabels(key, other, zone);
      return;
    }
    if key != "@" {
      RenderedName(key, zone);
    }
    if other != "@" {
      RenderedName(other, zone);
    }
    if key == "@" || other == "@" {
      LowerAt(key);
      LowerAt(other);
    } else {
      LowerConcat(Split(key), zone.labels);
      LowerConcat(Split(other), zone.labels);
      CancelSuffix(Lower(Split(key)), Lower(Split(other)), Lower(zone.labels));
    }
  }

  lemma CancelSuffix(a: LowerName, b: LowerName, z: LowerName)
    ensures a + z == b + z <==> a == b
  {
    if a + z == b + z {
      assert |a| == |b|;
      assert a == (a + z)[..|a|] == b;
    }
  }

  /** No other text becomes "@" in lower case. */
  lemma LowerAt(s: string)
    ensures LowerText(s) == "@" <==> s == "@"
  {
  }

  lemma LowerConcat(a: seq<string>, b: seq<string>)
    ensures Lower(a + b) == Lower(a) + Lower(b)
  {
  }

  // ---- Names in database lookups ----

  /** The text under which a queried name is searched in the database: its lower-case presentation form, which ends
      in a dot because a name read from a query is a full name, without that dot. */
  function QueryText(labels: seq<string>): string {
    var text := Display(DomainName(Lower(labels), true));
    text[..|text| - 1]
  }

  lemma QueryTextIsJoin(labels: seq<string>)
    ensures QueryText(labels) == Join(Lower(labels))
  {
  }

  lemma {:induction false} LowerKeepsValid(labels: seq<string>)
    requires ValidName(labels)
    ensures ValidName(Lower(labels))
  {
    LowerKeepsLength(labels);
    forall i | 0 <= i < |labels|
      ensures ValidLabel(Lower(labels)[i])
    {
      assert forall j | 0 <= j < |labels[i]| :: PlainChar(labels[i][j]) && PlainChar(LowerChar(labels[i][j]));
    }
  }

  lemma {:induction false} LowerKeepsLength(labels: seq<string>)
    ensures WireLength(Lower(labels)) == WireLength(labels)
  {
    if labels != [] {
      LowerKeepsLength(labels[1..]);
      assert Lower(labels)[1..] == Lower(labels[1..]);
    }
  }

  lemma LowerIdempotent(labels: seq<string>)
    ensures Lower(Lower(labels)) == Lower(labels)
  {
    forall i | 0 <= i < |labels|
      ensures Lower(Lower(labels))[i] == Lower(labels)[i]
    {
      assert LowerText(LowerText(labels[i])) == LowerText(labels[i]);
    }
  }

  lemma SameNameSymmetric(labels: seq<string>, other: seq<string>)
    ensures SameName(labels, other) <==> SameName(other, labels)
  {
  }

  lemma LowerTextConcat(a: string, b: string)
    ensures LowerText(a + b) == LowerText(a) + LowerText(b)
  {
  }

  lemma {:induction false} LowerJoin(labels: seq<string>)
    ensures LowerText(Join(labels)) == Join(Lower(labels))
  {
    if |labels| == 1 {
      assert Lower(labels) == [LowerText(labels[0])];
    } else if labels != [] {
      LowerJoin(labels[1..]);
      assert Lower(labels)[1..] == Lower(labels[1..]);
      LowerTextConcat(labels[0], ".");
      LowerTextConcat(labels[0] + ".", Join(labels[1..]));
    }
  }

  /** The searched text parses back to the queried labels in lower case, so a matched row's name never fails to
      parse and names what was asked for. */
  lemma QueryTextParses(labels: seq<string>)
    requires ValidName(labels)
    ensures FromStr(QueryText(labels)) == Ok(DomainName(Lower(labels), false))
    ensures SameName(Lower(labels), labels) && NoUpper(QueryText(labels))
  {
    QueryTextIsJoin(labels);
    LowerKeepsValid(labels);
    DisplayFromStr(DomainName(Lower(labels), false));
    assert Display(DomainName(Lower(labels), false)) == Join(Lower(labels));
    LowerIs(labels, Lower(labels));
    SameNameSymmetric(labels, Lower(labels));
    LowerJoin(labels);
    LowerTextIs(Join(labels), QueryText(labels));
  }

  /** Two queried names search the same text exactly when they are equal up to case. */
  lemma QueryTextIsCaseBlind(labels: seq<string>, other: seq<string>)
    requires ValidName(labels) && ValidName(other)
    ensures QueryText(labels) == QueryText(other) <==> SameName(labels, other)
  {
    LowerFolds(labels, other);
    QueryTextParses(labels);
    QueryTextParses(other);
  }
}
