/**
 * The header multimap of httpfromtcp/internal/headers: a map from a
 * normalised field name (trimmed, lower-cased) to one string value.
 * Repeated insertions join the values with ", " (the combination of field
 * lines that section 5.3 of RFC 9110 allows), and Parse consumes one
 * CRLF-terminated field line at a time, checking the name against the
 * token characters of section 5.6.2 of RFC 9110 (plus space).
 *
 * The pure functions below are the specification; the class Headers is the
 * map that the source updates in place, and each of its methods is proved
 * to leave exactly the map its specification function computes.
 */
module Headers {
  import opened Wrappers
  import opened Text

  type HeaderMap = map<string, string>

  /** A key as it is stored: no surrounding white space, no upper-case letter. */
  predicate Normalized(k: string) {
    Trimmed(k) && IsLower(k)
  }

  predicate NormalizedKeys(m: HeaderMap) {
    forall k :: k in m ==> Normalized(k)
  }

  /** keyf: the stored form of a key. */
  function Keyf(key: string): (k: string)
    ensures Normalized(k)
  {
    var t := TrimSpace(key);
    TrimSpaceTrims(key);
    ToLowerIsLower(t);
    ToLower(t)
  }

  /** Normalising a normalised key changes nothing. */
  lemma KeyfIdempotent(key: string)
    ensures Keyf(Keyf(key)) == Keyf(key)
  {
    var k := Keyf(key);
    TrimSpaceOfTrimmed(k);
    ToLowerOfLower(k);
  }

  /** A key already in stored form is its own stored form. */
  lemma KeyfOfNormalized(key: string)
    requires Normalized(key)
    ensures Keyf(key) == key
  {
    TrimSpaceOfTrimmed(key);
    ToLowerOfLower(key);
  }

  /** keyValf: the stored forms of a key and of a value. */
  function KeyValf(key: string, val: string): (string, string) {
    (Keyf(key), TrimSpace(val))
  }

  /**
   * The fields the response writers set, in stored form: one lemma per
   * literal, so that a caller's proof only unfolds the literal it uses
   * (one lemma over a parameter makes each caller redo the per-character
   * lower-casing of KeyOfLiteral).
   */
  lemma KeyConnection()
    ensures KeyValf("Connection", "close") == ("connection", "close")
  {
    KeyOfLiteral("Connection", "connection");
    TrimSpaceOfTrimmed("close");
  }

  lemma KeyContentType()
    ensures KeyValf("Content-Type", "text/plain") == ("content-type", "text/plain")
  {
    KeyOfLiteral("Content-Type", "content-type");
    TrimSpaceOfTrimmed("text/plain");
  }

  lemma KeyContentLength()
    ensures Keyf("Content-Length") == "content-length"
  {
    KeyOfLiteral("Content-Length", "content-length");
  }

  /** A key without surrounding white space is stored as its lower-case letters. */
  lemma KeyOfLiteral(key: string, lower: string)
    requires Trimmed(key) && |key| == |lower|
    requires forall i :: 0 <= i < |key| ==> LowerChar(key[i]) == lower[i]
    ensures Keyf(key) == lower
  {
    TrimSpaceOfTrimmed(key);
  }

  /** Get: case-insensitive lookup. */
  function Lookup(m: HeaderMap, key: string): Option<string> {
    if Keyf(key) in m then Some(m[Keyf(key)]) else None
  }

  /** Looking a key up ignores the white space around it and its case. */
  lemma {:induction false} LookupIgnoresCaseAndSpace(m: HeaderMap, key: string)
    ensures Lookup(m, key) == Lookup(m, Keyf(key))
    ensures Lookup(m, key) == Lookup(m, ToLower(key))
  {
    KeyfIdempotent(key);
    KeyfOfLower(key);
  }

  lemma {:induction false} KeyfOfLower(key: string)
    ensures Keyf(ToLower(key)) == Keyf(key)
  {
    var t := TrimSpace(key);
    LowerTrimCommute(key);
    ToLowerIsLower(t);
    ToLowerOfLower(ToLower(t));
  }

  lemma {:induction false} LowerTrimCommute(s: string)
    ensures ToLower(TrimSpace(s)) == TrimSpace(ToLower(s))
  {
    LowerTrimLeft(s);
    LowerTrimRight(TrimLeft(s));
  }

  lemma {:induction false} LowerTrimLeft(s: string)
    ensures ToLower(TrimLeft(s)) == TrimLeft(ToLower(s))
    decreases |s|
  {
    if |s| > 0 && IsSpace(s[0]) {
      assert ToLower(s)[1..] == ToLower(s[1..]);
      LowerTrimLeft(s[1..]);
    }
  }

  lemma {:induction false} LowerTrimRight(s: string)
    ensures ToLower(TrimRight(s)) == TrimRight(ToLower(s))
    decreases |s|
  {
    if |s| > 0 && IsSpace(s[|s| - 1]) {
      assert ToLower(s)[..|s| - 1] == ToLower(s[..|s| - 1]);
      LowerTrimRight(s[..|s| - 1]);
    }
  }

  /** Add: store the trimmed value, or join it to the value already stored with ", ". */
  function Added(m: HeaderMap, key: string, val: string): HeaderMap {
    var (k, v) := KeyValf(key, val);
    if k in m then m[k := m[k] + ", " + v] else m[k := v]
  }

  /** Set (and Override): replace whatever is stored under the key. */
  function Assigned(m: HeaderMap, key: string, val: string): HeaderMap {
    var (k, v) := KeyValf(key, val);
    m[k := v]
  }

  /** Set, once the stored forms of the key and the value are known. */
  lemma AssignedStored(m: HeaderMap, key: string, val: string, k: string, v: string)
    requires KeyValf(key, val) == (k, v)
    ensures Assigned(m, key, val) == m[k := v]
  {
  }

  /** Add of a key not yet present, once the stored forms of the key and the value are known. */
  lemma AddedStored(m: HeaderMap, key: string, val: string, k: string, v: string)
    requires KeyValf(key, val) == (k, v) && k !in m
    ensures Added(m, key, val) == m[k := v]
  {
  }

  /** Storing a key after deleting it is storing it. */
  lemma ReplaceAfterDelete(m0: HeaderMap, m1: HeaderMap, k: string, v: string)
    requires m1 == m0 || m1 == m0 - {k}
    ensures m1[k := v] == m0[k := v]
  {
  }

  /** Delete: remove the key. */
  function Removed(m: HeaderMap, key: string): HeaderMap {
    m - {Keyf(key)}
  }

  /**
   * Add joins the trimmed value to whatever the key held, with ", ", and
   * leaves every key that normalises differently as it was.
   */
  lemma LookupAdded(m: HeaderMap, key: string, val: string, other: string)
    ensures Keyf(other) == Keyf(key) ==>
      Lookup(Added(m, key, val), other) ==
        Some(match Lookup(m, key) case None => TrimSpace(val) case Some(v) => v + ", " + TrimSpace(val))
    ensures Keyf(other) != Keyf(key) ==> Lookup(Added(m, key, val), other) == Lookup(m, other)
    ensures NormalizedKeys(m) ==> NormalizedKeys(Added(m, key, val))
  {
  }

  /** Set makes the key hold exactly the trimmed value and leaves every other key as it was. */
  lemma LookupAssigned(m: HeaderMap, key: string, val: string, other: string)
    ensures Keyf(other) == Keyf(key) ==> Lookup(Assigned(m, key, val), other) == Some(TrimSpace(val))
    ensures Keyf(other) != Keyf(key) ==> Lookup(Assigned(m, key, val), other) == Lookup(m, other)
    ensures NormalizedKeys(m) ==> NormalizedKeys(Assigned(m, key, val))
  {
  }

  /** Delete makes every spelling of the key absent and leaves every other key as it was. */
  lemma LookupRemoved(m: HeaderMap, key: string, other: string)
    ensures Keyf(other) == Keyf(key) ==> Lookup(Removed(m, key), other) == None
    ensures Keyf(other) != Keyf(key) ==> Lookup(Removed(m, key), other) == Lookup(m, other)
    ensures NormalizedKeys(m) ==> NormalizedKeys(Removed(m, key))
  {
  }

  // ---------------------------------------------------------------------
  // Insertion order of repeated values
  // ---------------------------------------------------------------------

  /** A run of Add calls, in order. */
  function AddAll(m: HeaderMap, pairs: seq<(string, string)>): HeaderMap
    decreases |pairs|
  {
    if |pairs| == 0 then m
    else
      var last := pairs[|pairs| - 1];
      Added(AddAll(m, pairs[..|pairs| - 1]), last.0, last.1)
  }

  /** The trimmed values given for `key` in a run of Add calls, in order. */
  function ValuesFor(pairs: seq<(string, string)>, key: string): seq<string>
    decreases |pairs|
  {
    if |pairs| == 0 then []
    else
      var last := pairs[|pairs| - 1];
      ValuesFor(pairs[..|pairs| - 1], key) + (if Keyf(last.0) == Keyf(key) then [TrimSpace(last.1)] else [])
  }

  lemma {:induction false} JoinSnoc(vs: seq<string>, v: string, sep: string)
    requires vs != []
    ensures Join(vs + [v], sep) == Join(vs, sep) + sep + v
    decreases |vs|
  {
    if |vs| > 1 {
      assert (vs + [v])[1..] == vs[1..] + [v];
      JoinSnoc(vs[1..], v, sep);
    }
  }

  /**
   * After a run of Add calls on a key not yet present, the key holds every
   * value given for it, in the order given, joined with ", ".
   */
  lemma {:induction false} AddAllJoinsInOrder(m: HeaderMap, pairs: seq<(string, string)>, key: string)
    requires Keyf(key) !in m
    ensures var vs := ValuesFor(pairs, key);
      Lookup(AddAll(m, pairs), key) == if vs == [] then None else Some(Join(vs, ", "))
    decreases |pairs|
  {
    if |pairs| > 0 {
      var init := pairs[..|pairs| - 1];
      var last := pairs[|pairs| - 1];
      var before := AddAll(m, init);
      AddAllJoinsInOrder(m, init, key);
      var vs := ValuesFor(init, key);
      assert AddAll(m, pairs) == Added(before, last.0, last.1);
      if Keyf(last.0) == Keyf(key) {
        assert ValuesFor(pairs, key) == vs + [TrimSpace(last.1)];
        LookupAdded(before, last.0, last.1, key);
        assert Lookup(before, last.0) == Lookup(before, key);
        if vs != [] {
          JoinSnoc(vs, TrimSpace(last.1), ", ");
        }
      } else {
        assert ValuesFor(pairs, key) == vs;
        LookupAdded(before, last.0, last.1, key);
      }
    }
  }

  // ---------------------------------------------------------------------
  // Field names (valiadteKey)
  // ---------------------------------------------------------------------

  /** The characters besides letters and digits that a field name may hold. */
  predicate SpecialAllowed(c: char) {
    c in {'!', ' ', '#', '$', '%', '&', '\'', '*', '+', '-', '.', '^', '_', '`', '|', '~'}
  }

  predicate IsLetter(c: char) {
    'a' <= c <= 'z' || 'A' <= c <= 'Z'
  }

  predicate IsDigit(c: char) {
    '0' <= c <= '9'
  }

  predicate KeyChar(c: char) {
    IsLetter(c) || IsDigit(c) || SpecialAllowed(c)
  }

  predicate KeyChars(key: string) {
    forall i :: 0 <= i < |key| ==> KeyChar(key[i])
  }

  datatype FieldError =
    | MissingSeparator(line: string)   // no ':' in the field line
    | KeyEndsWithSpace(key: string)    // white space between the name and ':'
    | KeyHasInvalidChar(key: string)   // a character outside the allowed set

  /** The verdict of valiadteKey: a trailing space first, then the characters. */
  function CheckKey(key: string): (e: Option<FieldError>)
    ensures e == None <==> !HasSuffix(key, " ") && KeyChars(key)
  {
    if HasSuffix(key, " ") then Some(KeyEndsWithSpace(key))
    else if !KeyChars(key) then Some(KeyHasInvalidChar(key))
    else None
  }

  /** Which failure valiadteKey reports: the trailing space is checked before the characters. */
  lemma CheckKeyReports(key: string)
    ensures HasSuffix(key, " ") ==> CheckKey(key) == Some(KeyEndsWithSpace(key))
    ensures !HasSuffix(key, " ") && !KeyChars(key) ==> CheckKey(key) == Some(KeyHasInvalidChar(key))
  {
  }

  /** valiadteKey, with its loop over the characters and its flag. */
  method ValidateKey(key: string) returns (err: Option<FieldError>)
    ensures err == CheckKey(key)
  {
    if HasSuffix(key, " ") {
      return Some(KeyEndsWithSpace(key));
    }
    var hasInvalidChar := false;
    for i := 0 to |key|
      invariant hasInvalidChar <==> exists j :: 0 <= j < i && !KeyChar(key[j])
    {
      var r := key[i];
      if IsLetter(r) {
        continue;
      }
      if IsDigit(r) {
        continue;
      }
      var isSpecial := SpecialAllowed(r);
      if isSpecial {
        continue;
      }
      hasInvalidChar := true;
    }
    if hasInvalidChar {
      return Some(KeyHasInvalidChar(key));
    }
    return None;
  }

  // ---------------------------------------------------------------------
  // Parse: one field line at a time
  // ---------------------------------------------------------------------

  /** What Parse reports: the map afterwards, bytes consumed, end of block, error. */
  datatype Parsed = Parsed(m: HeaderMap, n: nat, done: bool, err: Option<FieldError>)

  /** The outcome of a complete line `text` (its CRLF already found). */
  function ParseLine(m: HeaderMap, text: string): (p: Parsed)
    ensures p.done <==> text == ""
    ensures p.done ==> p.m == m && p.n == 2 && p.err == None
    ensures p.err.Some? ==> p.m == m && p.n == 0 && !p.done
    ensures p.err == None ==> p.n == |text| + 2
  {
    if text == "" then Parsed(m, 2, true, None)
    else
      var sepIdx := Index(text, ":");
      if sepIdx == -1 then Parsed(m, 0, false, Some(MissingSeparator(text)))
      else
        var key := text[..sepIdx];
        var val := text[sepIdx + 1..];
        match CheckKey(key)
        case Some(e) => Parsed(m, 0, false, Some(e))
        case None => Parsed(Added(m, key, val), |text| + 2, false, None)
  }

  /** Parse: consume at most one CRLF-terminated field line from `data`. */
  function ParseField(m: HeaderMap, data: string): Parsed {
    var idx := Index(data, CRLF);
    if idx == -1 then Parsed(m, 0, false, None)
    else ParseLine(m, data[..idx])
  }

  /** Once the first CRLF is at `idx`, the line before it is what counts. */
  lemma ParseFieldAt(m: HeaderMap, data: string, idx: nat)
    requires Index(data, CRLF) == idx
    ensures ParseField(m, data) == ParseLine(m, data[..idx])
  {
  }

  /** A line with a well-formed key before its first colon adds that key and the rest of the line. */
  lemma ParseLineAdds(m: HeaderMap, text: string, sepIdx: nat)
    requires text != "" && Index(text, ":") == sepIdx && CheckKey(text[..sepIdx]) == None
    ensures ParseLine(m, text) == Parsed(Added(m, text[..sepIdx], text[sepIdx + 1..]), |text| + 2, false, None)
  {
  }

  /** A non-empty line is refused for a missing separator exactly when it holds no colon. */
  lemma ParseLineMissingSeparator(m: HeaderMap, text: string)
    ensures ParseLine(m, text).err == Some(MissingSeparator(text)) <==> text != "" && ':' !in text
  {
    IndexFindsChar(text, ':');
  }

  /**
   * Parse consumes nothing and changes nothing until a whole line is there,
   * consumes exactly that line when it succeeds, reports the end of the block
   * only for an empty line, and changes nothing when it fails.
   */
  lemma ParseFieldConsumesOneLine(m: HeaderMap, data: string)
    ensures var p := ParseField(m, data);
      && p.n <= |data|
      && (p.err.Some? ==> p.m == m && p.n == 0 && !p.done)
      && (p.done ==> p.m == m && p.n == 2 && HasPrefix(data, CRLF) && p.err == None)
      && (p.err == None && p.n == 0 ==> !Contains(data, CRLF) && p.m == m && !p.done)
      && (p.err == None && p.n > 0 ==> p.n >= 2 && OccursAt(data, CRLF, p.n - 2) && !Contains(data[..p.n - 2], CRLF))
  {
    var idx := Index(data, CRLF);
    if idx != -1 {
      BeforeIndex(data, CRLF);
      assert data[..0] + data[0..2] == data[..2];
    }
  }

  /** Only the first line matters: Parse on "line CRLF rest" is the outcome of that line. */
  lemma ParseFieldFirstLine(m: HeaderMap, line: string, rest: string)
    requires !Contains(line, CRLF)
    ensures ParseField(m, line + CRLF + rest) == ParseLine(m, line)
  {
    LineEnd(line, rest);
    assert (line + CRLF + rest)[..|line|] == line;
  }

  /** With no complete line yet, Parse asks for more bytes and changes nothing. */
  lemma ParseFieldPartial(m: HeaderMap, line: string, rest: string, q: nat)
    requires !Contains(line, CRLF) && q < |line| + 2
    ensures ParseField(m, (line + CRLF + rest)[..q]) == Parsed(m, 0, false, None)
  {
    PartialLine(line, rest, q);
  }

  /** The field line a writer emits for a stored key and value. */
  function FieldLine(key: string, val: string): string {
    key + ": " + val + CRLF
  }

  /** A field name that Parse accepts, in any case and with any leading spaces. */
  predicate WellFormedKey(key: string) {
    !HasSuffix(key, " ") && KeyChars(key)
  }

  /** A value that survives a round trip through a field line. */
  predicate WellFormedValue(val: string) {
    Trimmed(val) && !Contains(val, CRLF)
  }

  lemma TrimSpaceLeadingSpace(v: string)
    requires Trimmed(v)
    ensures TrimSpace(" " + v) == v
  {
    assert (" " + v)[1..] == v;
    TrimSpaceOfTrimmed(v);
  }

  /**
   * Round trip: the field line written for a well-formed key and value,
   * parsed back, adds exactly that key and value and consumes the line.
   */
  lemma {:induction false} ParseFieldLineRoundTrip(m: HeaderMap, key: string, val: string, rest: string)
    requires WellFormedKey(key) && WellFormedValue(val)
    ensures ParseField(m, FieldLine(key, val) + rest) == Parsed(Added(m, key, val), |FieldLine(key, val)|, false, None)
  {
    var line := key + ": " + val;
    assert FieldLine(key, val) + rest == line + CRLF + rest;
    NoCRLFInFieldLine(key, val);
    ParseFieldFirstLine(m, line, rest);
    ParseLineOfField(m, key, val);
  }

  lemma ParseLineAccepts(m: HeaderMap, text: string, i: int)
    requires text != "" && Index(text, ":") == i >= 0 && CheckKey(text[..i]) == None
    ensures ParseLine(m, text) == Parsed(Added(m, text[..i], text[i + 1..]), |text| + 2, false, None)
  {
  }

  lemma ParseLineOfField(m: HeaderMap, key: string, val: string)
    requires WellFormedKey(key) && WellFormedValue(val)
    ensures ParseLine(m, key + ": " + val) == Parsed(Added(m, key, val), |key| + |val| + 4, false, None)
  {
    WellFormedKeyAccepted(key);
    FieldLineShape(key, val);
    ParseLineAccepts(m, key + ": " + val, |key|);
    AddedTrimsValue(m, key, val);
  }

  lemma FieldLineShape(key: string, val: string)
    requires ':' !in key
    ensures var line := key + ": " + val;
      Index(line, ":") == |key| && line[..|key|] == key && line[|key| + 1..] == " " + val
  {
    var line := key + ": " + val;
    assert line == key + [':'] + (" " + val);
    IndexOfChar(key, ':', " " + val);
  }

  lemma WellFormedKeyAccepted(key: string)
    requires WellFormedKey(key)
    ensures CheckKey(key) == None && ':' !in key
  {
    forall i | 0 <= i < |key|
      ensures key[i] != ':'
    {
      assert KeyChar(key[i]);
    }
  }

  lemma AddedTrimsValue(m: HeaderMap, key: string, val: string)
    requires Trimmed(val)
    ensures Added(m, key, " " + val) == Added(m, key, val)
  {
    TrimSpaceLeadingSpace(val);
  }

  lemma NoCRLFInFieldLine(key: string, val: string)
    requires WellFormedKey(key) && WellFormedValue(val)
    ensures !Contains(key + ": " + val, CRLF)
  {
    var line := key + ": " + val;
    forall j | 0 <= j <= |line|
      ensures !OccursAt(line, CRLF, j)
    {
      if j < |key| + 2 {
        assert j < |key| ==> line[j] == key[j] && KeyChar(key[j]);
        assert j < |line| ==> line[j] != '\r';
        assert j + 2 <= |line| ==> line[j..j + 2][0] == line[j];
      } else {
        var k := j - |key| - 2;
        assert j + 2 <= |line| ==> line[j..j + 2] == val[k..k + 2];
        assert !OccursAt(val, CRLF, k);
      }
    }
  }

  // ---------------------------------------------------------------------
  // Serialising a map, in whatever order the map is walked
  // ---------------------------------------------------------------------

  /** `order` lists every key of `keys` exactly once: one of the orders in which a map may be walked. */
  predicate Enumerates(order: seq<string>, keys: set<string>) {
    && (forall i :: 0 <= i < |order| ==> order[i] in keys)
    && (forall k :: k in keys ==> k in order)
    && (forall i, j :: 0 <= i < j < |order| ==> order[i] != order[j])
  }

  /** Every finite set of keys can be walked in some order. */
  lemma {:induction false} EnumerationExists(keys: set<string>)
    ensures exists order :: Enumerates(order, keys)
    decreases keys
  {
    if keys == {} {
      assert Enumerates([], keys);
    } else {
      var k :| k in keys;
      EnumerationExists(keys - {k});
      var order :| Enumerates(order, keys - {k});
      assert Enumerates(order + [k], keys);
    }
  }

  /** One of the orders in which a map with these keys may be walked. */
  lemma SomeEnumeration(keys: set<string>) returns (order: seq<string>)
    ensures Enumerates(order, keys)
  {
    EnumerationExists(keys);
    order :| Enumerates(order, keys);
  }

  /** The field lines for the keys of `m` listed in `order`, one line per key. */
  function Block(m: HeaderMap, order: seq<string>): string
    requires forall i :: 0 <= i < |order| ==> order[i] in m
    decreases |order|
  {
    if order == [] then ""
    else
      var k := order[|order| - 1];
      Block(m, order[..|order| - 1]) + FieldLine(k, m[k])
  }

  /**
   * The loop over a header map that both response writers run: one
   * "key: value" CRLF line per entry, in the order the map is walked.
   */
  method SerializeFields(m: HeaderMap) returns (lines: string, ghost order: seq<string>)
    ensures Enumerates(order, m.Keys)
    ensures lines == Block(m, order)
  {
    lines := "";
    order := [];
    var remaining := m.Keys;
    while remaining != {}
      invariant remaining <= m.Keys
      invariant forall i :: 0 <= i < |order| ==> order[i] in m && order[i] !in remaining
      invariant forall k :: k in m.Keys ==> k in remaining || k in order
      invariant forall i, j :: 0 <= i < j < |order| ==> order[i] != order[j]
      invariant lines == Block(m, order)
      decreases remaining
    {
      var key :| key in remaining;
      lines := lines + FieldLine(key, m[key]);
      assert (order + [key])[..|order|] == order;
      order := order + [key];
      remaining := remaining - {key};
    }
  }

  // ---------------------------------------------------------------------
  // The map that the source mutates in place
  // ---------------------------------------------------------------------

  class Headers {
    var m: HeaderMap

    /** New: an empty map. */
    constructor ()
      ensures m == map[]
    {
      m := map[];
    }

    function Get(key: string): Option<string>
      reads this
    {
      Lookup(m, key)
    }

    method Add(key: string, val: string)
      modifies this
      ensures m == Added(old(m), key, val)
    {
      var (k, v) := KeyValf(key, val);
      if k in m {
        var existingVal := m[k];
        m := m[k := existingVal + ", " + v];
        return;
      }
      m := m[k := v];
    }

    method Delete(key: string)
      modifies this
      ensures m == Removed(old(m), key)
    {
      m := m - {Keyf(key)};
    }

    method Set(key: string, val: string)
      modifies this
      ensures m == Assigned(old(m), key, val)
    {
      var (k, v) := KeyValf(key, val);
      ghost var m0 := m;
      if k in m {
        m := m - {k};
      }
      ReplaceAfterDelete(m0, m, k, v);
      m := m[k := v];
    }

    method Parse(data: string) returns (n: nat, done: bool, err: Option<FieldError>)
      modifies this
      ensures ParseField(old(m), data) == Parsed(m, n, done, err)
    {
      var idx := Index(data, CRLF);
      if idx == -1 {
        return 0, false, None;
      }
      var headerText := data[..idx];
      ParseFieldAt(m, data, idx);
      n, done, err := ParseText(headerText);
    }

    /** The rest of Parse, once the line before the first CRLF is known. */
    method ParseText(headerText: string) returns (n: nat, done: bool, err: Option<FieldError>)
      modifies this
      ensures ParseLine(old(m), headerText) == Parsed(m, n, done, err)
    {
      if headerText == "" {
        return 2, true, None;
      }
      var sepIdx := Index(headerText, ":");
      if sepIdx == -1 {
        return 0, false, Some(MissingSeparator(headerText));
      }
      var key := headerText[..sepIdx];
      var val := headerText[sepIdx + 1..];
      var e := ValidateKey(key);
      if e.Some? {
        return 0, false, e;
      }
      ghost var m0 := m;
      Add(key, val);
      ParseLineAdds(m0, headerText, sepIdx);
      return |headerText| + 2, false, None;
    }
  }
}
