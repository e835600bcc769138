// The 115 cookie model `U115Cookie`: a loose parser of a Cookie header
// (name=value pairs separated by ";", in the manner of section 4.2.1 of
// RFC 6265) that keeps the four fields the model declares, and the
// dictionary form the plugin sends back.

module Cookie {
  import opened Wrappers
  import opened Strings

  /** The model's field names, `cls.__fields__`. */
  const Fields: set<string> := {"UID", "CID", "SEID", "KID"}

  /** What the model's constructor raises when a required field is missing. */
  const ValidationError: string := "ValidationError"

  /** A validated cookie: three required fields and an optional `KID`. */
  datatype U115Cookie = U115Cookie(uid: string, cid: string, seid: string, kid: Option<string>)

  /**
   * What one part of the header contributes: split at its first "=", both
   * sides stripped, kept only when the key is a field. A part without "="
   * contributes nothing.
   */
  function ParsePart(part: string): (r: Option<(string, string)>)
    ensures '=' !in part ==> r.None?
    ensures r.Some? ==> r.value.0 in Fields
  {
    match SplitFirst(part, '=')
    case None => None
    case Some((k, v)) =>
      var key := Strip(k);
      if key in Fields then Some((key, Strip(v))) else None
  }

  /** The contribution of every part, in order. */
  function Entries(parts: seq<string>): (r: seq<Option<(string, string)>>)
    ensures |r| == |parts|
    ensures forall i | 0 <= i < |parts| :: r[i] == ParsePart(parts[i])
  {
    seq(|parts|, i requires 0 <= i < |parts| => ParsePart(parts[i]))
  }

  /** The dictionary built from the contributions in order: a later key overwrites an earlier one. */
  function CollectEntries(es: seq<Option<(string, string)>>): map<string, string>
    decreases |es|
  {
    if es == [] then map[]
    else
      var d := CollectEntries(es[..|es| - 1]);
      var e := es[|es| - 1];
      if e.Some? then d[e.value.0 := e.value.1] else d
  }

  /** One more contribution, applied to what was collected before it. */
  lemma {:induction false} CollectEntriesStep(es: seq<Option<(string, string)>>, i: nat)
    requires i < |es|
    ensures CollectEntries(es[..i + 1])
      == if es[i].Some? then CollectEntries(es[..i])[es[i].value.0 := es[i].value.1] else CollectEntries(es[..i])
  {
    assert es[..i + 1][..i] == es[..i];
  }

  /** The dictionary the loop of `from_string` builds from the parts. */
  function Collect(parts: seq<string>): map<string, string> {
    CollectEntries(Entries(parts))
  }

  /** `cookie_string.strip().rstrip(';').split(';')` */
  function HeaderParts(s: string): (r: seq<string>)
    ensures |r| >= 1 && forall i | 0 <= i < |r| :: ';' !in r[i]
  {
    Split(TrimRightChar(Strip(s), ';'), ';')
  }

  /** `cls(**cookie_dict)`: the three required fields must be present. */
  function Construct(dict: map<string, string>): (r: Result<U115Cookie, string>)
    ensures r.Ok? <==> "UID" in dict && "CID" in dict && "SEID" in dict
    ensures r.Ok? ==> r.value.uid == dict["UID"] && r.value.cid == dict["CID"] && r.value.seid == dict["SEID"]
    ensures r.Ok? ==> (r.value.kid.Some? <==> "KID" in dict) && ("KID" in dict ==> r.value.kid == Some(dict["KID"]))
  {
    if "UID" in dict && "CID" in dict && "SEID" in dict then
      Ok(U115Cookie(dict["UID"], dict["CID"], dict["SEID"], if "KID" in dict then Some(dict["KID"]) else None))
    else Err(ValidationError)
  }

  /**
   * `from_string`: the parsed cookie, or the validation error of the model's
   * constructor. `None` stands for an input that is not a string; it and the
   * empty string construct the model with no fields at all.
   */
  function FromStringSpec(input: Option<string>): Result<U115Cookie, string> {
    if input.None? || input.value == "" then Construct(map[])
    else Construct(Collect(HeaderParts(input.value)))
  }

  /** `from_string`, with its loop over the parts filling the dictionary. */
  method FromString(input: Option<string>) returns (r: Result<U115Cookie, string>)
    ensures r == FromStringSpec(input)
  {
    if input.None? || input.value == "" {
      return Construct(map[]);
    }
    var parts := HeaderParts(input.value);
    ghost var es := Entries(parts);
    var cookieDict: map<string, string> := map[];
    var i := 0;
    while i < |parts|
      invariant 0 <= i <= |parts|
      invariant cookieDict == CollectEntries(es[..i])
    {
      var entry := ParsePart(parts[i]);
      assert entry == es[i];
      CollectEntriesStep(es, i);
      if entry.Some? {
        cookieDict := cookieDict[entry.value.0 := entry.value.1];
      }
      i := i + 1;
    }
    assert es[..i] == es;
    r := Construct(cookieDict);
  }

  /** `to_dict`: the three required fields always, `KID` only when it is set and not empty. */
  function ToDict(c: U115Cookie): (r: map<string, string>)
    ensures "UID" in r && r["UID"] == c.uid
    ensures "CID" in r && r["CID"] == c.cid
    ensures "SEID" in r && r["SEID"] == c.seid
    ensures "KID" in r <==> c.kid.Some? && c.kid.value != ""
    ensures "KID" in r ==> r["KID"] == c.kid.value
    ensures r.Keys <= Fields
  {
    var d := map["UID" := c.uid, "CID" := c.cid, "SEID" := c.seid];
    if c.kid.Some? && c.kid.value != "" then d["KID" := c.kid.value] else d
  }

  // ------------------------------------------------------------- properties

  /** An empty input, or one that is not a string, is refused by the model's validation. */
  lemma {:induction false} EmptyInputRefused(input: Option<string>)
    requires input.None? || input.value == ""
    ensures FromStringSpec(input) == Err(ValidationError)
  {
  }

  /** A key ends up in the dictionary only if some part contributes it. */
  lemma {:induction false} CollectKeyFrom(es: seq<Option<(string, string)>>, key: string)
    requires key in CollectEntries(es)
    ensures exists i | 0 <= i < |es| :: es[i].Some? && es[i].value.0 == key
    decreases |es|
  {
    var init := es[..|es| - 1];
    var e := es[|es| - 1];
    if !(e.Some? && e.value.0 == key) {
      CollectKeyFrom(init, key);
      var i :| 0 <= i < |init| && init[i].Some? && init[i].value.0 == key;
      assert es[i] == init[i];
    }
  }

  /** A header with no part naming one of the required fields is refused. */
  lemma {:induction false} MissingFieldRefused(s: string, key: string)
    requires s != ""
    requires key == "UID" || key == "CID" || key == "SEID"
    requires forall i | 0 <= i < |HeaderParts(s)| :: ParsePart(HeaderParts(s)[i]).Some? ==> ParsePart(HeaderParts(s)[i]).value.0 != key
    ensures FromStringSpec(Some(s)) == Err(ValidationError)
  {
    var es := Entries(HeaderParts(s));
    if key in CollectEntries(es) {
      CollectKeyFrom(es, key);
    }
  }

  /** A value that survives the header syntax unchanged: no ";" and no surrounding whitespace. */
  predicate CleanValue(v: string) {
    ';' !in v && (v == "" || (!IsSpace(v[0]) && !IsSpace(v[|v| - 1])))
  }

  /** The field names are their own strip and hold no "=". */
  lemma {:induction false} FieldNamesPlain()
    ensures forall k | k in Fields :: Strip(k) == k && '=' !in k
  {
    assert Strip("UID") == "UID";
    assert Strip("CID") == "CID";
    assert Strip("SEID") == "SEID";
    assert Strip("KID") == "KID";
  }

  /** A `key=value` part for a field contributes exactly that key and value. */
  lemma {:induction false} FieldPartParsed(key: string, value: string)
    requires key in Fields
    requires CleanValue(value)
    ensures ParsePart(key + "=" + value) == Some((key, value))
  {
    FieldNamesPlain();
    SplitFirstOfJoin(key, value, '=');
    assert Strip(value) == value;
  }

  /**
   * A `key=value` part for a field, coming after `parts`, stores the value
   * under the key whatever was there: a later duplicate overwrites an
   * earlier one.
   */
  lemma {:induction false} FieldPartWins(parts: seq<string>, key: string, value: string)
    requires key in Fields
    requires CleanValue(value)
    ensures Collect(parts + [key + "=" + value]) == Collect(parts)[key := value]
  {
    var part := key + "=" + value;
    var es := Entries(parts + [part]);
    FieldPartParsed(key, value);
    assert es[..|parts|] == Entries(parts);
  }

  /** `key=value` parts, one per pair. */
  function Render(kvs: seq<(string, string)>): (r: seq<string>)
    ensures |r| == |kvs|
    ensures forall j | 0 <= j < |r| :: r[j] == kvs[j].0 + "=" + kvs[j].1
  {
    seq(|kvs|, j requires 0 <= j < |kvs| => kvs[j].0 + "=" + kvs[j].1)
  }

  /** Pairs whose keys are distinct fields and whose values are clean. */
  predicate PlainPairs(kvs: seq<(string, string)>) {
    && (forall j | 0 <= j < |kvs| :: kvs[j].0 in Fields && CleanValue(kvs[j].1))
    && (forall i, j | 0 <= i < j < |kvs| :: kvs[i].0 != kvs[j].0)
  }

  /** Every pair as a contribution. */
  function Present(kvs: seq<(string, string)>): (r: seq<Option<(string, string)>>)
    ensures |r| == |kvs|
    ensures forall j | 0 <= j < |kvs| :: r[j] == Some(kvs[j])
  {
    seq(|kvs|, j requires 0 <= j < |kvs| => Some(kvs[j]))
  }

  /** Contributions with distinct keys give each key its value, and nothing else. */
  lemma {:induction false} CollectPresent(kvs: seq<(string, string)>)
    requires forall i, j | 0 <= i < j < |kvs| :: kvs[i].0 != kvs[j].0
    ensures forall k :: k in CollectEntries(Present(kvs)) <==> exists j | 0 <= j < |kvs| :: kvs[j].0 == k
    ensures forall j | 0 <= j < |kvs| :: kvs[j].0 in CollectEntries(Present(kvs)) && CollectEntries(Present(kvs))[kvs[j].0] == kvs[j].1
    decreases |kvs|
  {
    if kvs != [] {
      var init := kvs[..|kvs| - 1];
      var last := kvs[|kvs| - 1];
      CollectPresent(init);
      assert Present(kvs)[..|kvs| - 1] == Present(init);
      var d := CollectEntries(Present(kvs));
      assert d == CollectEntries(Present(init))[last.0 := last.1];
      forall j | 0 <= j < |kvs|
        ensures kvs[j].0 in d && d[kvs[j].0] == kvs[j].1
      {
        if j < |kvs| - 1 {
          assert kvs[j] == init[j];
        }
      }
      forall k | k in d
        ensures exists j | 0 <= j < |kvs| :: kvs[j].0 == k
      {
        if k != last.0 {
          var j :| 0 <= j < |init| && init[j].0 == k;
          assert kvs[j].0 == k;
        }
      }
    }
  }

  /** Every part rendered from plain pairs contributes its pair. */
  lemma {:induction false} EntriesOfRendered(kvs: seq<(string, string)>)
    requires PlainPairs(kvs)
    ensures Entries(Render(kvs)) == Present(kvs)
  {
    forall j | 0 <= j < |kvs|
      ensures Entries(Render(kvs))[j] == Present(kvs)[j]
    {
      FieldPartParsed(kvs[j].0, kvs[j].1);
    }
  }

  /** The field pairs of a cookie, in model order; `KID` only when set. */
  function CookiePairs(c: U115Cookie): seq<(string, string)> {
    [("UID", c.uid), ("CID", c.cid), ("SEID", c.seid)] + (if c.kid.Some? then [("KID", c.kid.value)] else [])
  }

  /** A header built from a cookie: its `key=value` parts joined by ";". */
  function Header(c: U115Cookie): string {
    Join(Render(CookiePairs(c)), ";")
  }

  /** The four field names are pairwise different. */
  lemma {:induction false} FieldNamesDistinct()
    ensures "UID" != "CID" && "UID" != "SEID" && "UID" != "KID"
    ensures "CID" != "SEID" && "CID" != "KID" && "SEID" != "KID"
  {
    assert "UID"[0] != "CID"[0] && "UID"[0] != "KID"[0] && "CID"[0] != "KID"[0];
    assert |"SEID"| == 4 && |"UID"| == 3 && |"CID"| == 3 && |"KID"| == 3;
  }

  /** The field pairs of a cookie with clean values are plain. */
  lemma {:induction false} CookiePairsPlain(c: U115Cookie)
    requires CleanValue(c.uid) && CleanValue(c.cid) && CleanValue(c.seid)
    requires c.kid.Some? ==> CleanValue(c.kid.value)
    ensures PlainPairs(CookiePairs(c))
  {
    FieldNamesDistinct();
    var kvs := CookiePairs(c);
    var names := ["UID", "CID", "SEID", "KID"];
    assert forall j | 0 <= j < |kvs| :: kvs[j].0 == names[j];
    assert forall j | 0 <= j < 4 :: names[j] in Fields;
    assert forall i, j | 0 <= i < j < 4 :: names[i] != names[j];
  }

  /** The field pairs of a cookie, given as contributions, construct the cookie. */
  lemma {:induction false} ConstructPresent(c: U115Cookie)
    ensures Construct(CollectEntries(Present(CookiePairs(c)))) == Ok(c)
  {
    FieldNamesDistinct();
    var kvs := CookiePairs(c);
    CollectPresent(kvs);
    var d := CollectEntries(Present(kvs));
    assert kvs[0].0 == "UID" && kvs[1].0 == "CID" && kvs[2].0 == "SEID";
    if c.kid.Some? {
      assert kvs[3].0 == "KID";
    } else {
      assert |kvs| == 3;
      assert forall j | 0 <= j < |kvs| :: kvs[j].0 != "KID";
      assert "KID" !in d;
    }
  }

  /** A join of parts starts with the first part and ends with the last. */
  lemma {:induction false} JoinEnds(parts: seq<string>, sep: string)
    requires |parts| >= 1
    ensures var j := Join(parts, sep);
      && |j| >= |parts[0]| && j[..|parts[0]|] == parts[0]
      && |j| >= |parts[|parts| - 1]| && j[|j| - |parts[|parts| - 1]|..] == parts[|parts| - 1]
    decreases |parts|
  {
    if |parts| > 1 {
      JoinEnds(parts[1..], sep);
    }
  }

  /** The header of a cookie survives the strip and the removal of trailing ";" untouched. */
  lemma {:induction false} HeaderUntrimmed(c: U115Cookie)
    requires CleanValue(c.uid) && CleanValue(c.cid) && CleanValue(c.seid)
    requires c.kid.Some? ==> CleanValue(c.kid.value)
    ensures TrimRightChar(Strip(Header(c)), ';') == Header(c)
  {
    var ps := Render(CookiePairs(c));
    var h := Header(c);
    var last := ps[|ps| - 1];
    JoinEnds(ps, ";");
    assert h[0] == ps[0][0] == 'U';
    assert h[|h| - 1] == last[|last| - 1];
    assert !IsSpace(h[|h| - 1]) && h[|h| - 1] != ';';
  }

  /** Reading back the header of a cookie whose values are clean gives the cookie. */
  lemma {:induction false} HeaderRoundTrip(c: U115Cookie)
    requires CleanValue(c.uid) && CleanValue(c.cid) && CleanValue(c.seid)
    requires c.kid.Some? ==> CleanValue(c.kid.value)
    ensures FromStringSpec(Some(Header(c))) == Ok(c)
  {
    var kvs := CookiePairs(c);
    var ps := Render(kvs);
    HeaderUntrimmed(c);
    SplitJoin(ps, ';');
    CookiePairsPlain(c);
    EntriesOfRendered(kvs);
    ConstructPresent(c);
  }

  /** `U115Cookie(**c.to_dict())` gives the cookie back, except that an empty `KID` becomes unset. */
  lemma {:induction false} ToDictRoundTrip(c: U115Cookie)
    ensures Construct(ToDict(c)) == Ok(U115Cookie(c.uid, c.cid, c.seid, if c.kid == Some("") then None else c.kid))
  {
  }
}
