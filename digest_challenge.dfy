/**
 * The DIGEST-MD5 challenge parser of lib/net/sasl/digest_md5_authenticator.rb
 * (the `while c.scan(...)` loop of stage one). The regular expression
 *
 *   optional white space and comma, white space, a `\w+` key, "=", then either a
 *   double-quoted token (with backslash escapes) or a run of non-commas,
 *   then white space
 *
 * is written out as a scanner over byte strings. Each value then goes through
 * the `^"(.*)"$` unquoting and the split on commas, and a later key overwrites
 * an earlier one. Whatever the scanner cannot consume is a DataFormatError.
 */
module DigestChallenge {
  import opened Strings
  import opened Errors

  /** A challenge value: text, or the items of a quoted value that held a comma. */
  datatype Param = Text(s: Bytes) | List(items: seq<Bytes>)

  /** The `sparams` hash. */
  type Params = map<Bytes, Param>

  /** One match of the scanner's regular expression: the two groups and where the match ends. */
  datatype Match = Match(key: Bytes, value: Bytes, next: nat)

  predicate IsWord(s: Bytes) {
    |s| > 0 && forall i :: 0 <= i < |s| ==> IsWordChar(s[i])
  }

  /** The end of the run of `\s` that starts at `i`. */
  function SpacesEnd(s: Bytes, i: nat): (j: nat)
    requires i <= |s|
    ensures i <= j <= |s|
    ensures j == |s| || !IsSpace(s[j])
    decreases |s| - i
  {
    if i < |s| && IsSpace(s[i]) then SpacesEnd(s, i + 1) else i
  }

  /** The end of the run of `\w` that starts at `i`. */
  function WordEnd(s: Bytes, i: nat): (j: nat)
    requires i <= |s|
    ensures i <= j <= |s|
    ensures j == |s| || !IsWordChar(s[j])
    decreases |s| - i
  {
    if i < |s| && IsWordChar(s[i]) then WordEnd(s, i + 1) else i
  }

  /** The end of the run of non-commas that starts at `i` (`[^,]+` is this run when it is not empty). */
  function CommaOrEnd(s: Bytes, i: nat): (j: nat)
    requires i <= |s|
    ensures i <= j <= |s|
    ensures j == |s| || s[j] == ','
    decreases |s| - i
  {
    if i < |s| && s[i] != ',' then CommaOrEnd(s, i + 1) else i
  }

  /**
   * The body of a quoted token, from just after its opening quote at `i`:
   * runs of bytes other than `\` and `"`, or a `\` with any byte but a line
   * feed after it; the end is just past the closing quote. `None` when the
   * closing quote is missing or a `\` cannot start an escape.
   */
  function QuotedEnd(s: Bytes, i: nat): (e: Option<nat>)
    requires i <= |s|
    ensures e.Some? ==> i < e.value <= |s| && s[e.value - 1] == '"'
    decreases |s| - i
  {
    if i == |s| then None
    else if s[i] == '"' then Some(i + 1)
    else if s[i] == '\\' then
      if i + 1 < |s| && s[i + 1] != '\n' then QuotedEnd(s, i + 2) else None
    else QuotedEnd(s, i + 1)
  }

  /** Where the key starts: past white space, one optional comma, and white space again (`(?:\s*,)?\s*`). */
  function KeyStart(s: Bytes, pos: nat): (c: nat)
    requires pos <= |s|
    ensures pos <= c <= |s|
  {
    var a := SpacesEnd(s, pos);
    var b := if a < |s| && s[a] == ',' then a + 1 else a;
    SpacesEnd(s, b)
  }

  /**
   * Where the value starting at `v` ends, and where the match ends. The
   * quoted alternative is tried first; the plain one needs at least one byte
   * that is not a comma and already takes any trailing white space.
   */
  function ValueEnd(s: Bytes, v: nat): (r: Option<(nat, nat)>)
    requires v <= |s|
    ensures r.Some? ==> v < r.value.0 <= r.value.1 <= |s|
  {
    if v < |s| && s[v] == '"' && QuotedEnd(s, v + 1).Some? then
      var e := QuotedEnd(s, v + 1).value;
      Some((e, SpacesEnd(s, e)))
    else if v < |s| && s[v] != ',' then
      var e := CommaOrEnd(s, v);
      Some((e, e))
    else None
  }

  /** `StringScanner#scan` with the challenge pattern, anchored at `pos`. */
  function ScanPair(s: Bytes, pos: nat): (m: Option<Match>)
    requires pos <= |s|
    ensures m.Some? ==> pos < m.value.next <= |s|
  {
    var c := KeyStart(s, pos);
    var k := WordEnd(s, c);
    if k == c || k == |s| || s[k] != '=' then None
    else
      match ValueEnd(s, k + 1)
      case None => None
      case Some((e, next)) => Some(Match(s[c..k], s[k + 1..e], next))
  }

  /**
   * `scan` called again and again from `pos` until it fails: where it stops,
   * and the last raw value matched for each key.
   */
  function ScanAll(s: Bytes, pos: nat, acc: map<Bytes, Bytes>): (r: (nat, map<Bytes, Bytes>))
    requires pos <= |s|
    ensures pos <= r.0 <= |s|
    decreases |s| - pos
  {
    match ScanPair(s, pos)
    case None => (pos, acc)
    case Some(m) => ScanAll(s, m.next, acc[m.key := m.value])
  }

  /** The first line, in order, of at least two bytes that starts and ends with `"`, without those quotes. */
  function QuotedLine(lines: seq<Bytes>): Option<Bytes> {
    if lines == [] then None
    else
      var l := lines[0];
      if |l| >= 2 && l[0] == '"' && l[|l| - 1] == '"' then Some(l[1..|l| - 1])
      else QuotedLine(lines[1..])
  }

  /**
   * What the loop does with a matched value: `v =~ /^"(.*)"$/` looks for a
   * line (the anchors are per line) wrapped in quotes and keeps its inside;
   * that inside becomes `v.split(",")` when it holds a comma.
   */
  function Decode(v: Bytes): Param
  {
    match QuotedLine(RawSplit(v, '\n'))
    case None => Text(v)
    case Some(inner) => if ',' in inner then List(Split(inner, ',')) else Text(inner)
  }

  /** Every raw value decoded; storing decoded values one by one gives the same hash. */
  function DecodeAll(raw: map<Bytes, Bytes>): (p: Params)
    ensures p.Keys == raw.Keys
  {
    map k | k in raw :: Decode(raw[k])
  }

  lemma DecodeAllUpdate(raw: map<Bytes, Bytes>, k: Bytes, v: Bytes)
    ensures DecodeAll(raw[k := v]) == DecodeAll(raw)[k := Decode(v)]
  {
  }

  /** Stage one's parse of a present challenge: the parameters, or DataFormatError when a remainder is left. */
  function Parse(challenge: Bytes): (r: Result<Params>)
    ensures r.Raise? ==> r.error == DataFormatError
  {
    var (stop, raw) := ScanAll(challenge, 0, map[]);
    if stop < |challenge| then Raise(DataFormatError) else Ok(DecodeAll(raw))
  }

  /**
   * The loop itself: `StringScanner.new(challenge)` (a TypeError for `nil`),
   * then `scan` until it fails, storing each decoded value under its key,
   * then the check that the rest is empty.
   */
  method ParseChallenge(challenge: Option<Bytes>) returns (r: Result<Params>)
    ensures challenge.None? ==> r == Raise(TypeError)
    ensures challenge.Some? ==> r == Parse(challenge.value)
  {
    if challenge.None? {
      return Raise(TypeError);
    }
    var c := challenge.value;
    var pos := 0;
    var sparams: Params := map[];
    ghost var raw: map<Bytes, Bytes> := map[];
    var m := ScanPair(c, 0);
    while m.Some?
      invariant pos <= |c|
      invariant m == ScanPair(c, pos)
      invariant ScanAll(c, pos, raw) == ScanAll(c, 0, map[])
      invariant sparams == DecodeAll(raw)
      decreases |c| - pos
    {
      DecodeAllUpdate(raw, m.value.key, m.value.value);
      sparams := sparams[m.value.key := Decode(m.value.value)];
      raw := raw[m.value.key := m.value.value];
      pos := m.value.next;
      m := ScanPair(c, pos);
    }
    if pos < |c| {
      return Raise(DataFormatError);
    }
    return Ok(sparams);
  }

  /** One successful `scan`: its key and value are stored and scanning goes on where the match ended. */
  lemma ScanAllStep(s: Bytes, pos: nat, acc: map<Bytes, Bytes>, key: Bytes, value: Bytes, next: nat)
    requires pos <= |s| && ScanPair(s, pos) == Some(Match(key, value, next))
    ensures next <= |s| && ScanAll(s, pos, acc) == ScanAll(s, next, acc[key := value])
  {
  }

  /** Every key the scanner stores is a `\w+` word. */
  lemma {:induction false} ScanAllKeys(s: Bytes, pos: nat, acc: map<Bytes, Bytes>)
    requires pos <= |s|
    requires forall k :: k in acc ==> IsWord(k)
    ensures forall k :: k in ScanAll(s, pos, acc).1 ==> IsWord(k)
    decreases |s| - pos
  {
    match ScanPair(s, pos)
    case None =>
    case Some(m) =>
      ScanPairKey(s, pos);
      ScanAllKeys(s, m.next, acc[m.key := m.value]);
  }

  /** A match's key is a word. */
  lemma ScanPairKey(s: Bytes, pos: nat)
    requires pos <= |s| && ScanPair(s, pos).Some?
    ensures IsWord(ScanPair(s, pos).value.key)
  {
    var c := KeyStart(s, pos);
    WordEndWord(s, c);
  }

  /** The run `WordEnd` measures is made of word bytes. */
  lemma {:induction false} WordEndWord(s: Bytes, i: nat)
    requires i <= |s|
    ensures forall k :: i <= k < WordEnd(s, i) ==> IsWordChar(s[k])
    decreases |s| - i
  {
    if i < |s| && IsWordChar(s[i]) {
      WordEndWord(s, i + 1);
    }
  }

  /** The keys of a successful parse are all words. */
  lemma ParseKeys(challenge: Bytes)
    requires Parse(challenge).Ok?
    ensures forall k :: k in Parse(challenge).value ==> IsWord(k)
  {
    ScanAllKeys(challenge, 0, map[]);
  }

  // ---------------------------------------------------------------------
  // Reading back what a server writes

  /** One `key=value` item of a challenge as a server writes it: bare, or in double quotes. */
  datatype Field = Bare(key: Bytes, value: Bytes) | Quoted(key: Bytes, value: Bytes)

  /**
   * The fields this parser reads back as written: a word key; a bare value
   * that is not empty and holds no comma or quote; a quoted value without
   * quotes, backslashes or line feeds.
   */
  predicate WellFormed(f: Field) {
    IsWord(f.key) &&
    match f
    case Bare(_, v) => |v| > 0 && ',' !in v && '"' !in v
    case Quoted(_, v) => '"' !in v && '\\' !in v && '\n' !in v
  }

  function Render(f: Field): Bytes {
    match f
    case Bare(k, v) => k + "=" + v
    case Quoted(k, v) => k + "=\"" + v + "\""
  }

  /** The raw second group of the scanner's match for a field. */
  function RawValue(f: Field): Bytes {
    match f
    case Bare(_, v) => v
    case Quoted(_, v) => "\"" + v + "\""
  }

  /** The fields written one after the other, separated by commas. */
  function Encode(fields: seq<Field>): Bytes {
    if fields == [] then [] else Render(fields[0]) + EncodeTail(fields[1..])
  }

  /** Each field preceded by a comma. */
  function EncodeTail(fields: seq<Field>): Bytes {
    if fields == [] then [] else "," + Render(fields[0]) + EncodeTail(fields[1..])
  }

  /** What a field means: a bare value is text; a quoted one loses its quotes and is split on commas when it holds one. */
  function Meaning(f: Field): Param {
    match f
    case Bare(_, v) => Text(v)
    case Quoted(_, v) => if ',' in v then List(Split(v, ',')) else Text(v)
  }

  /** The fields stored one after the other into `acc`, so that a later field overwrites an earlier one with the same key. */
  function Collect(fields: seq<Field>, acc: Params): Params {
    if fields == [] then acc else Collect(fields[1..], acc[fields[0].key := Meaning(fields[0])])
  }

  /** The raw values the scanner matches for the fields, later ones overwriting earlier ones. */
  function CollectRaw(fields: seq<Field>, acc: map<Bytes, Bytes>): map<Bytes, Bytes> {
    if fields == [] then acc else CollectRaw(fields[1..], acc[fields[0].key := RawValue(fields[0])])
  }

  /** Decoding what the scanner matched gives what the fields mean. */
  lemma {:induction false} CollectDecoded(fields: seq<Field>, acc: map<Bytes, Bytes>)
    requires forall i :: 0 <= i < |fields| ==> WellFormed(fields[i])
    ensures DecodeAll(CollectRaw(fields, acc)) == Collect(fields, DecodeAll(acc))
  {
    if fields != [] {
      var f := fields[0];
      DecodeRawValue(f);
      DecodeAllUpdate(acc, f.key, RawValue(f));
      CollectDecoded(fields[1..], acc[f.key := RawValue(f)]);
    }
  }

  /** A key ends at the first byte that is not a word byte. */
  lemma {:induction false} WordEndOver(s: Bytes, i: nat, j: nat)
    requires i <= j <= |s|
    requires forall k :: i <= k < j ==> IsWordChar(s[k])
    requires j == |s| || !IsWordChar(s[j])
    ensures WordEnd(s, i) == j
    decreases j - i
  {
    if i < j {
      WordEndOver(s, i + 1, j);
    }
  }

  /** A plain value ends at the first comma. */
  lemma {:induction false} CommaOrEndOver(s: Bytes, i: nat, j: nat)
    requires i <= j <= |s|
    requires forall k :: i <= k < j ==> s[k] != ','
    requires j == |s| || s[j] == ','
    ensures CommaOrEnd(s, i) == j
    decreases j - i
  {
    if i < j {
      CommaOrEndOver(s, i + 1, j);
    }
  }

  /** A quoted body without quotes or backslashes ends just past the next quote. */
  lemma {:induction false} QuotedEndOver(s: Bytes, i: nat, j: nat)
    requires i <= j < |s| && s[j] == '"'
    requires forall k :: i <= k < j ==> s[k] != '"' && s[k] != '\\'
    ensures QuotedEnd(s, i) == Some(j + 1)
    decreases j - i
  {
    if i < j {
      QuotedEndOver(s, i + 1, j);
    }
  }

  /** The key of a field written at `pos`, or after a comma there, starts right after that comma. */
  lemma KeyStartAfter(s: Bytes, pos: nat, p: nat)
    requires p < |s| && IsWordChar(s[p])
    requires p == pos || (p == pos + 1 && s[pos] == ',')
    ensures KeyStart(s, pos) == p
  {
  }

  /** Where `x + y` is written from `p` on: `x` first, then `y`. */
  lemma SplitAt(s: Bytes, p: nat, x: Bytes, y: Bytes)
    requires p <= |s| && s[p..] == x + y
    ensures p + |x| <= |s| && s[p..p + |x|] == x && s[p + |x|..] == y
  {
    forall i | 0 <= i < |x|
      ensures s[p..p + |x|][i] == x[i]
    {
      assert s[p + i] == s[p..][i];
    }
    forall i | 0 <= i < |y|
      ensures s[p + |x|..][i] == y[i]
    {
      assert s[p + |x| + i] == s[p..][|x| + i];
    }
  }

  /** Where `[c] + y` is written from `p` on: `c` at `p`, then `y`. */
  lemma ConsAt(s: Bytes, p: nat, c: Byte, y: Bytes)
    requires p <= |s| && s[p..] == [c] + y
    ensures p < |s| && s[p] == c && s[p + 1..] == y
  {
    assert s[p] == s[p..][0];
    assert s[p + 1..] == s[p..][1..];
  }

  /** A bare value runs to the next comma or the end. */
  lemma ScanBareValue(s: Bytes, v: nat, value: Bytes)
    requires v + |value| <= |s| && s[v..v + |value|] == value
    requires |value| > 0 && ',' !in value && '"' !in value
    requires v + |value| == |s| || s[v + |value|] == ','
    ensures ValueEnd(s, v) == Some((v + |value|, v + |value|))
  {
    assert s[v] == value[0];
    forall k | v <= k < v + |value|
      ensures s[k] != ','
    {
      assert s[k] == value[k - v];
    }
    CommaOrEndOver(s, v, v + |value|);
  }

  /** A quoted value runs to its closing quote. */
  lemma ScanQuotedValue(s: Bytes, v: nat, value: Bytes)
    requires v + |value| + 2 <= |s| && s[v..v + |value| + 2] == "\"" + value + "\""
    requires '"' !in value && '\\' !in value
    requires v + |value| + 2 == |s| || s[v + |value| + 2] == ','
    ensures ValueEnd(s, v) == Some((v + |value| + 2, v + |value| + 2))
  {
    var e := v + |value| + 2;
    assert s[v] == '"';
    assert s[e - 1] == '"';
    forall k | v + 1 <= k < e - 1
      ensures s[k] != '"' && s[k] != '\\'
    {
      assert s[k] == value[k - v - 1];
    }
    QuotedEndOver(s, v + 1, e - 1);
  }

  /** How the scanner's match is put together from its parts. */
  lemma ScanPairOf(s: Bytes, pos: nat, c: nat, k: nat, e: nat)
    requires pos <= c < k < e <= |s|
    requires KeyStart(s, pos) == c && WordEnd(s, c) == k && s[k] == '='
    requires ValueEnd(s, k + 1) == Some((e, e))
    ensures ScanPair(s, pos) == Some(Match(s[c..k], s[k + 1..e], e))
  {
  }

  /** A slice of a slice: where `x` is written at `a`, so are its parts. */
  lemma SliceWithin(s: Bytes, a: nat, x: Bytes, i: nat, j: nat)
    requires a + |x| <= |s| && s[a..a + |x|] == x
    requires i <= j <= |x|
    ensures s[a + i..a + j] == x[i..j]
  {
    forall k | 0 <= k < j - i
      ensures s[a + i..a + j][k] == x[i..j][k]
    {
      assert s[a + i + k] == s[a..a + |x|][i + k];
    }
  }

  /** A rendered field is its key, "=", and its raw value. */
  lemma RenderParts(f: Field)
    ensures |Render(f)| == |f.key| + 1 + |RawValue(f)|
    ensures Render(f)[..|f.key|] == f.key && Render(f)[|f.key|] == '='
    ensures Render(f)[|f.key| + 1..] == RawValue(f)
  {
    assert Render(f) == f.key + "=" + RawValue(f);
  }

  /** The key of a field rendered at `p` runs up to the "=". */
  lemma ScanKeyAt(s: Bytes, p: nat, f: Field)
    requires WellFormed(f)
    requires p + |Render(f)| <= |s| && s[p..p + |Render(f)|] == Render(f)
    ensures p < |s| && IsWordChar(s[p])
    ensures WordEnd(s, p) == p + |f.key|
    ensures p + |f.key| < |s| && s[p + |f.key|] == '='
    ensures s[p..p + |f.key|] == f.key
  {
    var n := |f.key|;
    RenderParts(f);
    SliceWithin(s, p, Render(f), 0, n);
    SliceWithin(s, p, Render(f), n, n + 1);
    assert s[p + n] == s[p + n..p + n + 1][0];
    forall k | p <= k < p + n
      ensures IsWordChar(s[k])
    {
      assert s[k] == s[p..p + n][k - p];
    }
    WordEndOver(s, p, p + n);
  }

  /** The value of a field rendered at `p` is what the scanner takes after the "=". */
  lemma ScanValueAt(s: Bytes, p: nat, f: Field)
    requires WellFormed(f)
    requires p + |Render(f)| <= |s| && s[p..p + |Render(f)|] == Render(f)
    requires p + |Render(f)| == |s| || s[p + |Render(f)|] == ','
    ensures s[p + |f.key| + 1..p + |Render(f)|] == RawValue(f)
    ensures ValueEnd(s, p + |f.key| + 1) == Some((p + |Render(f)|, p + |Render(f)|))
  {
    var v := p + |f.key| + 1;
    RenderParts(f);
    SliceWithin(s, p, Render(f), |f.key| + 1, |Render(f)|);
    match f {
      case Bare(key, value) =>
        ScanBareValue(s, v, value);
      case Quoted(key, value) =>
        ScanQuotedValue(s, v, value);
    }
  }

  /** The scanner at `pos` matches a field rendered there or after a comma there, up to the end or a comma. */
  lemma ScanFieldAt(s: Bytes, pos: nat, p: nat, f: Field)
    requires WellFormed(f)
    requires p + |Render(f)| <= |s| && s[p..p + |Render(f)|] == Render(f)
    requires p == pos || (p == pos + 1 && s[pos] == ',')
    requires p + |Render(f)| == |s| || s[p + |Render(f)|] == ','
    ensures ScanPair(s, pos) == Some(Match(f.key, RawValue(f), p + |Render(f)|))
  {
    ScanKeyAt(s, p, f);
    KeyStartAfter(s, pos, p);
    ScanValueAt(s, p, f);
    ScanPairOf(s, pos, p, p + |f.key|, p + |Render(f)|);
  }

  /** A well-formed field's raw value decodes to its meaning. */
  lemma DecodeRawValue(f: Field)
    requires WellFormed(f)
    ensures Decode(RawValue(f)) == Meaning(f)
  {
    match f
    case Bare(_, v) =>
      NoQuotedLine(v);
    case Quoted(_, v) =>
      RawSplitNoSep(RawValue(f), '\n');
  }

  /** A value without quotes has no line wrapped in quotes. */
  lemma NoQuotedLine(v: Bytes)
    requires '"' !in v
    ensures QuotedLine(RawSplit(v, '\n')) == None
  {
    RawSplitOmits(v, '\n', '"');
    QuotedLineNone(RawSplit(v, '\n'));
  }

  /** No field of a split holds a byte the string does not hold. */
  lemma {:induction false} RawSplitOmits(s: Bytes, sep: Byte, c: Byte)
    requires c !in s
    ensures forall i :: 0 <= i < |RawSplit(s, sep)| ==> c !in RawSplit(s, sep)[i]
  {
    if s != [] {
      RawSplitOmits(s[1..], sep, c);
    }
  }

  lemma {:induction false} QuotedLineNone(lines: seq<Bytes>)
    requires forall i :: 0 <= i < |lines| ==> '"' !in lines[i]
    ensures QuotedLine(lines) == None
  {
    if lines != [] {
      assert '"' !in lines[0];
      QuotedLineNone(lines[1..]);
    }
  }

  /** Comma-led fields followed by more text: a comma, the first field, then the others and that text. */
  lemma EncodeTailThen(fields: seq<Field>, rest: Bytes)
    requires fields != []
    ensures EncodeTail(fields) + rest == [','] + (Render(fields[0]) + (EncodeTail(fields[1..]) + rest))
  {
    var r := Render(fields[0]);
    var tail := EncodeTail(fields[1..]);
    Assoc([','] + r, tail, rest);
    Assoc([','], r, tail + rest);
  }

  /** Comma-led fields followed by the end or a comma are themselves followed by the end or a comma. */
  lemma TailStart(fields: seq<Field>, rest: Bytes)
    requires rest == [] || rest[0] == ','
    ensures EncodeTail(fields) + rest == [] || (EncodeTail(fields) + rest)[0] == ','
  {
    if fields != [] {
      EncodeTailThen(fields, rest);
    }
  }

  /** Where text that is empty or starts with a comma is written from `p` on, `p` is the end or a comma. */
  lemma StopAt(s: Bytes, p: nat, rest: Bytes)
    requires p <= |s| && s[p..] == rest
    requires rest == [] || rest[0] == ','
    ensures p == |s| || s[p] == ','
  {
    if rest != [] {
      assert s[p] == s[p..][0];
    }
  }

  /** `s[pos..stop]` is `fields`, each written after a comma. */
  predicate TailAt(s: Bytes, pos: nat, fields: seq<Field>, stop: nat)
    decreases |fields|
  {
    if fields == [] then pos == stop
    else
      var e := pos + 1 + |Render(fields[0])|;
      e <= stop <= |s| && s[pos] == ',' && s[pos + 1..e] == Render(fields[0]) && TailAt(s, e, fields[1..], stop)
  }

  /** Where comma-led fields and then `rest` are written from `pos` on, `TailAt` holds up to `rest`. */
  lemma {:induction false} EncodeTailAt(s: Bytes, pos: nat, fields: seq<Field>, rest: Bytes, stop: nat)
    requires pos <= |s| && s[pos..] == EncodeTail(fields) + rest && stop + |rest| == |s|
    ensures pos <= stop && TailAt(s, pos, fields, stop)
    decreases |fields|
  {
    if fields != [] {
      var r := Render(fields[0]);
      var more := EncodeTail(fields[1..]) + rest;
      EncodeTailThen(fields, rest);
      ConsAt(s, pos, ',', r + more);
      SplitAt(s, pos + 1, r, more);
      EncodeTailAt(s, pos + 1 + |r|, fields[1..], rest, stop);
    }
  }

  /** The first of the comma-led fields, and where the others start. */
  lemma TailAtFirst(s: Bytes, pos: nat, fields: seq<Field>, stop: nat)
    requires fields != [] && TailAt(s, pos, fields, stop)
    requires stop == |s| || s[stop] == ','
    ensures pos + 1 + |Render(fields[0])| <= stop <= |s|
    ensures s[pos] == ',' && s[pos + 1..pos + 1 + |Render(fields[0])|] == Render(fields[0])
    ensures TailAt(s, pos + 1 + |Render(fields[0])|, fields[1..], stop)
    ensures pos + 1 + |Render(fields[0])| == |s| || s[pos + 1 + |Render(fields[0])|] == ','
  {
    var e := pos + 1 + |Render(fields[0])|;
    if fields[1..] != [] {
      assert s[e] == ',';
    }
  }

  /** One comma-led field written at `pos` is one step of the scanner. */
  lemma ScanCommaField(s: Bytes, pos: nat, f: Field, acc: map<Bytes, Bytes>)
    requires WellFormed(f)
    requires pos + 1 + |Render(f)| <= |s| && s[pos] == ',' && s[pos + 1..pos + 1 + |Render(f)|] == Render(f)
    requires pos + 1 + |Render(f)| == |s| || s[pos + 1 + |Render(f)|] == ','
    ensures ScanAll(s, pos, acc) == ScanAll(s, pos + 1 + |Render(f)|, acc[f.key := RawValue(f)])
  {
    ScanFieldAt(s, pos, pos + 1, f);
    ScanAllStep(s, pos, acc, f.key, RawValue(f), pos + 1 + |Render(f)|);
  }

  /** Scanning comma-led fields stores each of them, in order, and stops only after the last. */
  lemma {:induction false} ScanTailAt(s: Bytes, pos: nat, fields: seq<Field>, stop: nat, acc: map<Bytes, Bytes>)
    requires forall i :: 0 <= i < |fields| ==> WellFormed(fields[i])
    requires pos <= stop <= |s| && TailAt(s, pos, fields, stop)
    requires stop == |s| || s[stop] == ','
    ensures ScanAll(s, pos, acc) == ScanAll(s, stop, CollectRaw(fields, acc))
    decreases |fields|
  {
    if fields != [] {
      var f := fields[0];
      TailAtFirst(s, pos, fields, stop);
      ScanCommaField(s, pos, f, acc);
      ScanTailAt(s, pos + 1 + |Render(f)|, fields[1..], stop, acc[f.key := RawValue(f)]);
    }
  }

  /** Concatenation is associative. */
  lemma Assoc(a: Bytes, b: Bytes, c: Bytes)
    ensures (a + b) + c == a + (b + c)
  {
  }

  /** The fields followed by `rest`: the first field, then the others after commas, then `rest`. */
  lemma EncodeThen(fields: seq<Field>, rest: Bytes)
    requires fields != []
    ensures Encode(fields) + rest == Render(fields[0]) + (EncodeTail(fields[1..]) + rest)
  {
    Assoc(Render(fields[0]), EncodeTail(fields[1..]), rest);
  }

  /** Where `x` and then text that is empty or starts with a comma are written from `p` on, `x` ends at the end or a comma. */
  lemma ItemAt(s: Bytes, p: nat, x: Bytes, more: Bytes)
    requires p <= |s| && s[p..] == x + more
    requires more == [] || more[0] == ','
    ensures p + |x| <= |s| && s[p..p + |x|] == x && s[p + |x|..] == more
    ensures p + |x| == |s| || s[p + |x|] == ','
  {
    SplitAt(s, p, x, more);
    StopAt(s, p + |x|, more);
  }

  /** Where `x + y` is written from `p` on, `y` is the suffix of `s` from `q` on. */
  lemma SuffixAt(s: Bytes, p: nat, x: Bytes, y: Bytes, q: nat)
    requires p <= |s| && s[p..] == x + y && q + |y| == |s|
    ensures p + |x| == q && s[q..] == y
  {
    SplitAt(s, p, x, y);
  }

  /** The first field, written at the start of `s` up to the end or a comma, is the scanner's first step. */
  lemma ScanFirstField(s: Bytes, f: Field)
    requires WellFormed(f)
    requires |Render(f)| <= |s| && s[0..|Render(f)|] == Render(f)
    requires |Render(f)| == |s| || s[|Render(f)|] == ','
    ensures ScanAll(s, 0, map[]) == ScanAll(s, |Render(f)|, map[f.key := RawValue(f)])
  {
    ScanFieldAt(s, 0, 0, f);
    ScanAllStep(s, 0, map[], f.key, RawValue(f), |Render(f)|);
  }

  /** Scanning fields written at the start of `s`, up to `stop`, stores all of them. */
  lemma ScanFields(s: Bytes, fields: seq<Field>, stop: nat)
    requires forall i :: 0 <= i < |fields| ==> WellFormed(fields[i])
    requires fields != [] && |Render(fields[0])| <= stop <= |s| && s[0..|Render(fields[0])|] == Render(fields[0])
    requires |Render(fields[0])| == |s| || s[|Render(fields[0])|] == ','
    requires TailAt(s, |Render(fields[0])|, fields[1..], stop)
    requires stop == |s| || s[stop] == ','
    ensures ScanAll(s, 0, map[]) == ScanAll(s, stop, CollectRaw(fields, map[]))
  {
    var f := fields[0];
    ScanFirstField(s, f);
    ScanTailAt(s, |Render(f)|, fields[1..], stop, map[f.key := RawValue(f)]);
    assert CollectRaw(fields, map[]) == CollectRaw(fields[1..], map[f.key := RawValue(f)]);
  }

  /**
   * Fields written at the start of `s` and followed by `rest`, which is empty
   * or starts with a comma: the first field up to the end or a comma, then
   * the others after commas up to `rest`.
   */
  lemma LayOut(s: Bytes, fields: seq<Field>, rest: Bytes, stop: nat)
    requires fields != [] && (rest == [] || rest[0] == ',')
    requires s[0..] == Encode(fields) + rest && stop + |rest| == |s|
    ensures |Render(fields[0])| <= stop <= |s| && s[0..|Render(fields[0])|] == Render(fields[0])
    ensures |Render(fields[0])| == |s| || s[|Render(fields[0])|] == ','
    ensures TailAt(s, |Render(fields[0])|, fields[1..], stop)
    ensures stop == |s| || s[stop] == ','
  {
    SuffixAt(s, 0, Encode(fields), rest, stop);
    StopAt(s, stop, rest);
    EncodeThen(fields, rest);
    TailStart(fields[1..], rest);
    ItemAt(s, 0, Render(fields[0]), EncodeTail(fields[1..]) + rest);
    EncodeTailAt(s, |Render(fields[0])|, fields[1..], rest, stop);
  }

  /** Scanning fields written at the start of `s`, before `rest`, stores all of them and stops at `stop`, where `rest` starts. */
  lemma ScanEncoded(s: Bytes, fields: seq<Field>, rest: Bytes, stop: nat)
    requires forall i :: 0 <= i < |fields| ==> WellFormed(fields[i])
    requires fields != [] && (rest == [] || rest[0] == ',')
    requires s[0..] == Encode(fields) + rest && stop + |rest| == |s|
    ensures ScanAll(s, 0, map[]) == ScanAll(s, stop, CollectRaw(fields, map[]))
  {
    LayOut(s, fields, rest, stop);
    ScanFields(s, fields, stop);
  }

  /** Round trip: the parse of well-formed comma-separated fields is exactly those fields, later ones winning. */
  lemma ParseEncode(fields: seq<Field>)
    requires forall i :: 0 <= i < |fields| ==> WellFormed(fields[i])
    ensures Parse(Encode(fields)) == Ok(Collect(fields, map[]))
  {
    var s := Encode(fields);
    if fields != [] {
      assert s[0..] == s + [];
      ScanEncoded(s, fields, [], |s|);
    }
    assert ScanPair(s, |s|) == None;
    CollectDecoded(fields, map[]);
    assert DecodeAll(map[]) == map[];
  }

  /** A trailing comma is a remainder the scanner cannot consume. */
  lemma TrailingCommaRejected(fields: seq<Field>)
    requires forall i :: 0 <= i < |fields| ==> WellFormed(fields[i])
    ensures Parse(Encode(fields) + ",") == Raise(DataFormatError)
  {
    var s := Encode(fields) + ",";
    if fields != [] {
      assert s[0..] == Encode(fields) + ",";
      ScanEncoded(s, fields, ",", |s| - 1);
    }
    assert s[|s| - 1] == ',';
    assert KeyStart(s, |s| - 1) == |s|;
    assert ScanPair(s, |s| - 1) == None;
  }

  /** The value stored under a key is the meaning of the last field with that key. */
  lemma {:induction false} CollectLastWins(fields: seq<Field>, acc: Params, j: nat)
    requires j < |fields|
    requires forall i :: j < i < |fields| ==> fields[i].key != fields[j].key
    ensures fields[j].key in Collect(fields, acc)
    ensures Collect(fields, acc)[fields[j].key] == Meaning(fields[j])
  {
    if j > 0 {
      CollectLastWins(fields[1..], acc[fields[0].key := Meaning(fields[0])], j - 1);
    } else {
      CollectKeeps(fields[1..], acc[fields[0].key := Meaning(fields[0])], fields[0].key);
    }
  }

  /** Storing fields with other keys leaves an entry alone. */
  lemma {:induction false} CollectKeeps(fields: seq<Field>, acc: Params, key: Bytes)
    requires key in acc
    requires forall i :: 0 <= i < |fields| ==> fields[i].key != key
    ensures key in Collect(fields, acc) && Collect(fields, acc)[key] == acc[key]
  {
    if fields != [] {
      CollectKeeps(fields[1..], acc[fields[0].key := Meaning(fields[0])], key);
    }
  }

  /** The challenge of the DIGEST-MD5 example in test/net/sasl_test.rb, field by field. */
  function ExampleFields(): seq<Field> {
    [Quoted("realm", "somerealm"), Quoted("nonce", "OA6MG9tEQGm2hh"), Quoted("qop", "auth"),
     Bare("charset", "utf-8"), Bare("algorithm", "md5-sess")]
  }

  /** The example challenge parses into its five values, with the quotes removed from the quoted ones. */
  lemma ParseExample()
    ensures Parse(Encode(ExampleFields())) == Ok(ExampleParams())
  {
    ExampleWellFormed();
    ParseEncode(ExampleFields());
    ExampleCollect();
  }

  /** The five values of the example challenge, as text. */
  function ExampleParams(): Params {
    map["realm" := Text("somerealm"), "nonce" := Text("OA6MG9tEQGm2hh"), "qop" := Text("auth"),
        "charset" := Text("utf-8"), "algorithm" := Text("md5-sess")]
  }

  lemma ExampleWellFormed()
    ensures forall i :: 0 <= i < |ExampleFields()| ==> WellFormed(ExampleFields()[i])
  {
    ExampleQuotedWellFormed();
    ExampleNonceWellFormed();
    ExampleBareWellFormed();
  }

  lemma ExampleQuotedWellFormed()
    ensures WellFormed(Quoted("realm", "somerealm")) && WellFormed(Quoted("qop", "auth"))
  {
  }

  lemma ExampleNonceWellFormed()
    ensures WellFormed(Quoted("nonce", "OA6MG9tEQGm2hh"))
  {
  }

  lemma ExampleBareWellFormed()
    ensures WellFormed(Bare("charset", "utf-8")) && WellFormed(Bare("algorithm", "md5-sess"))
  {
  }

  /** No value of the example holds a comma. */
  lemma ExampleNoCommas()
    ensures forall i :: 0 <= i < |ExampleFields()| ==> ',' !in ExampleFields()[i].value
  {
    var f := ExampleFields();
    assert ',' !in f[0].value;
    assert ',' !in f[1].value;
    assert ',' !in f[2].value;
    assert ',' !in f[3].value;
    assert ',' !in f[4].value;
  }

  /** Storing a field whose value holds no comma stores that value as text. */
  lemma CollectTextStep(fields: seq<Field>, acc: Params)
    requires fields != [] && ',' !in fields[0].value
    ensures Collect(fields, acc) == Collect(fields[1..], acc[fields[0].key := Text(fields[0].value)])
  {
  }

  lemma ExampleCollect()
    ensures Collect(ExampleFields(), map[]) == ExampleParams()
  {
    var f := ExampleFields();
    ExampleNoCommas();
    var a1 := map[][f[0].key := Text(f[0].value)];
    var a2 := a1[f[1].key := Text(f[1].value)];
    var a3 := a2[f[2].key := Text(f[2].value)];
    var a4 := a3[f[3].key := Text(f[3].value)];
    CollectTextStep(f, map[]);
    CollectTextStep(f[1..], a1);
    assert f[1..][1..] == f[2..];
    CollectTextStep(f[2..], a2);
    assert f[2..][1..] == f[3..];
    CollectTextStep(f[3..], a3);
    assert f[3..][1..] == f[4..];
    CollectTextStep(f[4..], a4);
    assert f[4..][1..] == [];
  }
}
