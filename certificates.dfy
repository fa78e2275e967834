/**
 * The two certificate listings of the easy-rsa PKI: the users holding an issued
 * certificate (the `.crt` files of `pki/issued`) and the users whose certificate is
 * revoked (the `R` entries of `pki/index.txt`). A directory listing or a file's lines
 * are given as values; an absent value is a directory or file that does not exist.
 */
module Certificates {
  import opened Wrappers
  import opened Text

  /** The server's own certificate, which neither listing shows. */
  const ServerName: string := "server"

  const CrtSuffix: string := ".crt"

  // ---------------------------------------------------------------------------
  // Issued certificates
  // ---------------------------------------------------------------------------

  /** A name the `*.crt` pattern matches: any name ending in `.crt`, hidden ones included. */
  predicate IsCrtFile(name: string) {
    EndsWith(name, CrtSuffix)
  }

  /** The path stem of a `.crt` file: the name without its suffix; `.crt` alone is its own stem. */
  function Stem(name: string): string
    requires IsCrtFile(name)
  {
    if |name| > |CrtSuffix| then name[..|name| - |CrtSuffix|] else name
  }

  /** The certificate file of user `u` has `u` as its stem. */
  lemma StemOfCertificateFile(u: string)
    requires u != []
    ensures IsCrtFile(u + CrtSuffix) && Stem(u + CrtSuffix) == u
  {
    var n := u + CrtSuffix;
    assert n[|n| - |CrtSuffix|..] == CrtSuffix;
    assert n[..|n| - |CrtSuffix|] == u;
  }

  /**
   * The stems collected while walking the listing: one per `.crt` name, in listing
   * order, `server` skipped.
   */
  function ClientStems(names: seq<string>): (r: seq<string>)
    ensures |r| <= |names|
    ensures forall x :: x in r <==>
      x != ServerName && exists i :: 0 <= i < |names| && IsCrtFile(names[i]) && Stem(names[i]) == x
  {
    if names == [] then []
    else
      var init := names[..|names| - 1];
      var last := names[|names| - 1];
      var rest := ClientStems(init);
      assert forall i :: 0 <= i < |init| ==> init[i] == names[i];
      rest + (if IsCrtFile(last) && Stem(last) != ServerName then [Stem(last)] else [])
  }

  /** The stems of two runs of names are those of the first run followed by those of the second. */
  lemma {:induction false} ClientStemsAppend(a: seq<string>, b: seq<string>)
    ensures ClientStems(a + b) == ClientStems(a) + ClientStems(b)
    decreases |b|
  {
    if b == [] {
      assert a + b == a;
    } else {
      var b' := b[..|b| - 1];
      assert (a + b)[..|a + b| - 1] == a + b';
      assert (a + b)[|a + b| - 1] == b[|b| - 1];
      ClientStemsAppend(a, b');
    }
  }

  /** One name contributes its stem when it is a `.crt` file other than the server's, and nothing otherwise. */
  lemma ClientStemsSingle(name: string)
    ensures ClientStems([name]) == if IsCrtFile(name) && Stem(name) != ServerName then [Stem(name)] else []
  {
    assert [name][..0] == [];
  }

  /**
   * The users with an issued certificate: sorted, without `server`, one entry per
   * `.crt` file; nothing when the directory is missing.
   */
  function ValidCertificates(issued: Option<seq<string>>): (r: seq<string>)
    ensures Sorted(r)
    ensures ServerName !in r
    ensures issued.None? ==> r == []
    ensures issued.Some? ==> multiset(r) == multiset(ClientStems(issued.value))
  {
    match issued
    case None => []
    case Some(names) =>
      var r := SortStrings(ClientStems(names));
      assert forall x :: x in r <==> x in ClientStems(names) by {
        forall x ensures x in r <==> x in ClientStems(names) {
          assert x in r <==> x in multiset(r);
        }
      }
      r
  }

  /** Every user whose certificate file is in the listing appears, unless it is the server. */
  lemma IssuedUserIsListed(names: seq<string>, u: string)
    requires u != [] && u != ServerName && u + CrtSuffix in names
    ensures u in ValidCertificates(Some(names))
  {
    StemOfCertificateFile(u);
    var i :| 0 <= i < |names| && names[i] == u + CrtSuffix;
    var r := ValidCertificates(Some(names));
    assert u in ClientStems(names);
    assert u in multiset(r);
  }

  // ---------------------------------------------------------------------------
  // The Common Name of an index entry: re.search(r'/CN=([^/]+)', field)
  // ---------------------------------------------------------------------------

  const CnMarker: string := "/CN="

  /** The pattern matches at `i`: the marker, then at least one character that is not `/`. */
  predicate MatchesAt(field: string, i: nat) {
    i + |CnMarker| < |field| && field[i..i + |CnMarker|] == CnMarker && field[i + |CnMarker|] != '/'
  }

  /** The longest run at the front of `s` without a `/`: what `[^/]+` takes once it starts. */
  function RunUntilSlash(s: string): (r: string)
    ensures |r| <= |s| && r == s[..|r|]
    ensures '/' !in r
    ensures |r| == |s| || s[|r|] == '/'
  {
    if s == [] || s[0] == '/' then [] else [s[0]] + RunUntilSlash(s[1..])
  }

  /** The leftmost position at or after `i` where the pattern matches. */
  function FirstMatch(field: string, i: nat): (r: Option<nat>)
    requires i <= |field|
    ensures r.Some? ==> i <= r.value < |field| && MatchesAt(field, r.value)
    ensures r.Some? ==> forall k :: i <= k < r.value ==> !MatchesAt(field, k)
    ensures r.None? ==> forall k :: i <= k < |field| ==> !MatchesAt(field, k)
    decreases |field| - i
  {
    if i == |field| then None
    else if MatchesAt(field, i) then Some(i)
    else FirstMatch(field, i + 1)
  }

  /**
   * The captured Common Name, as `re.search` finds it: absent when the pattern matches
   * nowhere; otherwise a non-empty run without `/` that follows an occurrence of the
   * marker. It is kept as it is (a trailing newline included).
   */
  function CnValue(field: string): (r: Option<string>)
    ensures r.None? <==> forall k :: 0 <= k < |field| ==> !MatchesAt(field, k)
    ensures r.Some? ==> r.value != [] && '/' !in r.value && Contains(field, CnMarker + r.value)
  {
    match FirstMatch(field, 0)
    case None => None
    case Some(j) =>
      var v := RunUntilSlash(field[j + |CnMarker|..]);
      assert field[j..][..|CnMarker + v|] == CnMarker + v;
      ContainsAt(field, CnMarker + v, j);
      Some(v)
  }

  /**
   * Which occurrence the name comes from: the leftmost match, and the name runs from the
   * end of its marker up to the next `/` or the end of the field.
   */
  lemma CnValueIsLeftmost(field: string)
    requires CnValue(field).Some?
    ensures exists j ::
      && 0 <= j < |field| && MatchesAt(field, j)
      && (forall k :: 0 <= k < j ==> !MatchesAt(field, k))
      && j + |CnMarker| + |CnValue(field).value| <= |field|
      && field[j + |CnMarker|..j + |CnMarker| + |CnValue(field).value|] == CnValue(field).value
      && (j + |CnMarker| + |CnValue(field).value| == |field|
          || field[j + |CnMarker| + |CnValue(field).value|] == '/')
  {
    var j := FirstMatch(field, 0).value;
    var v := CnValue(field).value;
    assert v == RunUntilSlash(field[j + |CnMarker|..]);
    assert field[j + |CnMarker|..j + |CnMarker| + |v|] == field[j + |CnMarker|..][..|v|];
  }

  /** A field that is exactly the marker and a slash-free name yields that name. */
  lemma CnValueOfPlainField(v: string)
    requires v != [] && '/' !in v
    ensures CnValue(CnMarker + v) == Some(v)
  {
    var f := CnMarker + v;
    assert MatchesAt(f, 0);
    assert f[|CnMarker|..] == v;
    assert RunUntilSlash(v) == v;
    assert FirstMatch(f, 0) == Some(0);
  }

  // ---------------------------------------------------------------------------
  // Revoked certificates
  // ---------------------------------------------------------------------------

  /** The Common Name a revoked index line carries: an `R` line with at least six tab fields, read from field 5. */
  function RevokedName(line: string): Option<string> {
    if StartsWith(line, "R") then
      var parts := Split(line, '\t');
      if |parts| >= 6 then CnValue(parts[5]) else None
    else None
  }

  /**
   * The names collected while reading the index with `extract` as the per-line reading:
   * one per line it reads a name from, in file order, `server` skipped.
   */
  function CollectNames(lines: seq<string>, extract: string -> Option<string>): (r: seq<string>)
    ensures forall x :: x in r <==>
      x != ServerName && exists i :: 0 <= i < |lines| && extract(lines[i]) == Some(x)
  {
    if lines == [] then []
    else
      var init := lines[..|lines| - 1];
      var name := extract(lines[|lines| - 1]);
      assert forall i :: 0 <= i < |init| ==> init[i] == lines[i];
      CollectNames(init, extract) + (if name.Some? && name.value != ServerName then [name.value] else [])
  }

  /** Reading one more line appends what that line yields. */
  lemma CollectNamesStep(lines: seq<string>, i: nat, extract: string -> Option<string>)
    requires i < |lines|
    ensures CollectNames(lines[..i + 1], extract) == CollectNames(lines[..i], extract) +
      (if extract(lines[i]).Some? && extract(lines[i]).value != ServerName then [extract(lines[i]).value] else [])
  {
    assert lines[..i + 1][..i] == lines[..i];
  }

  /**
   * The users with a revoked certificate: sorted, without repeats, without `server`, and
   * exactly the names of the revoked index lines; nothing when the index is missing.
   */
  function RevokedCertificates(index: Option<seq<string>>): (r: seq<string>)
    ensures StrictlySorted(r)
    ensures ServerName !in r
    ensures index.None? ==> r == []
    ensures index.Some? ==> forall x :: x in r <==>
      x != ServerName && exists i :: 0 <= i < |index.value| && RevokedName(index.value[i]) == Some(x)
  {
    match index
    case None => []
    case Some(lines) => SortUnique(CollectNames(lines, RevokedName))
  }

  /** The manager's reading loop over the index, followed by `sorted(set(...))`. */
  method ListRevoked(index: Option<seq<string>>) returns (names: seq<string>)
    ensures names == RevokedCertificates(index)
  {
    if index.None? {
      return [];
    }
    var lines := index.value;
    var revoked := [];
    for i := 0 to |lines|
      invariant revoked == CollectNames(lines[..i], RevokedName)
    {
      CollectNamesStep(lines, i, RevokedName);
      var line := lines[i];
      if StartsWith(line, "R") {
        var parts := Split(line, '\t');
        if |parts| >= 6 {
          var cn := CnValue(parts[5]);
          if cn.Some? && cn.value != ServerName {
            revoked := revoked + [cn.value];
          }
        }
      }
    }
    assert lines[..|lines|] == lines;
    names := SortUnique(revoked);
  }

  // ---------------------------------------------------------------------------
  // The name keeps the line's newline
  // ---------------------------------------------------------------------------

  /** The fields of the index line easy-rsa writes for a revoked server certificate; the DN comes last. */
  const RevokedServerFields: seq<string> :=
    ["R", "261015000000Z", "241015000000Z", "01", "unknown", "/CN=server\n"]

  const RevokedServerLine: string := Join(RevokedServerFields, '\t')

  lemma RevokedServerLineFields()
    ensures Split(RevokedServerLine, '\t') == RevokedServerFields
  {
    SplitJoin(RevokedServerFields, '\t');
  }

  /** The server line is a revoked line whose name, read as written, is `server` followed by a newline. */
  lemma RevokedServerLineName()
    ensures RevokedName(RevokedServerLine) == Some("server\n")
  {
    RevokedServerLineFields();
    assert RevokedServerLine == RevokedServerFields[0] + ['\t'] + Join(RevokedServerFields[1..], '\t');
    assert RevokedServerLine[..1] == "R";
    assert RevokedServerFields[5] == CnMarker + "server\n";
    CnValueOfPlainField("server\n");
  }

  /**
   * As written, the name read from the last field of a line keeps its newline, so the
   * server's revoked certificate is listed (as `server\n`) although `server` is meant to
   * be left out.
   */
  lemma RevokedServerIsListed()
    ensures RevokedCertificates(Some([RevokedServerLine])) == ["server\n"]
  {
    RevokedServerLineName();
    assert CollectNames([RevokedServerLine], RevokedName) == ["server\n"] by {
      assert [RevokedServerLine][..0] == [];
    }
    assert SortUnique(["server\n"]) == ["server\n"] by {
      assert ["server\n"][..0] == [];
    }
  }

  /** The corrected reading: the captured name with its surrounding whitespace removed. */
  function TrimmedRevokedName(line: string): (r: Option<string>)
    ensures r.Some? ==> r.value != [] && Strip(r.value) == r.value
  {
    match RevokedName(line)
    case None => None
    case Some(v) =>
      StripIdempotent(v);
      if Strip(v) == [] then None else Some(Strip(v))
  }

  /**
   * The revoked listing as intended: sorted, without repeats, every name free of
   * surrounding whitespace, and `server` never listed however its line ends.
   */
  function TrimmedRevokedCertificates(index: Option<seq<string>>): (r: seq<string>)
    ensures StrictlySorted(r)
    ensures forall x :: x in r ==> x != [] && Strip(x) == x && x != ServerName
    ensures index.Some? ==> forall x :: x in r <==>
      x != ServerName && exists i :: 0 <= i < |index.value| && TrimmedRevokedName(index.value[i]) == Some(x)
  {
    match index
    case None => []
    case Some(lines) => SortUnique(CollectNames(lines, TrimmedRevokedName))
  }

  /** `server` followed by a newline strips to `server`. */
  lemma StripServerNewline()
    ensures Strip("server\n") == ServerName
  {
    var v := "server\n";
    StripShape(v);
    assert !IsSpace(v[0]) && !IsSpace(v[5]) && IsSpace(v[6]);
  }

  /** With the name trimmed, the revoked server line no longer shows up. */
  lemma TrimmedRevokedServerIsHidden()
    ensures TrimmedRevokedCertificates(Some([RevokedServerLine])) == []
  {
    RevokedServerLineName();
    StripServerNewline();
    assert TrimmedRevokedName(RevokedServerLine) == Some(ServerName);
    assert CollectNames([RevokedServerLine], TrimmedRevokedName) == [] by {
      assert [RevokedServerLine][..0] == [];
    }
  }
}
