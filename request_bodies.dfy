/**
 * The form bodies the Tribler web UI sends when it starts and removes a
 * download, and the reading of such a body as `&`-separated fields.
 */
module RequestBodies {

  /** The decimal digit for `d`. */
  function DigitChar(d: nat): (c: char)
    requires d < 10
    ensures '0' <= c <= '9'
    ensures c as int - '0' as int == d
  {
    ('0' as int + d) as char
  }

  /**
   * `n` in decimal, without leading zeros, as a JavaScript template literal
   * renders a non-negative integer below 10^21.
   */
  function NatToDecimal(n: nat): (r: string)
    ensures |r| >= 1
    ensures forall i :: 0 <= i < |r| ==> '0' <= r[i] <= '9'
    ensures DecimalValue(r) == n
    ensures n == 0 ==> r == "0"
    ensures n > 0 ==> r[0] != '0'
  {
    if n < 10 then [DigitChar(n)] else NatToDecimal(n / 10) + [DigitChar(n % 10)]
  }

  /** The number a string of decimal digits denotes. */
  function DecimalValue(s: string): (v: nat)
    requires forall i :: 0 <= i < |s| ==> '0' <= s[i] <= '9'
  {
    if s == [] then 0 else DecimalValue(s[..|s| - 1]) * 10 + (s[|s| - 1] as int - '0' as int)
  }

  /** `n` in decimal, with a leading `-` when it is negative. */
  function IntToDecimal(n: int): (r: string)
    ensures '&' !in r
    ensures n < 0 <==> (|r| > 0 && r[0] == '-')
  {
    if n < 0 then "-" + NatToDecimal(-n) else NatToDecimal(n)
  }

  /**
   * After the sign, if any, the rendering of `n` is the canonical decimal
   * numeral of the magnitude of `n`: digits only, no leading zero, and
   * denoting `|n|`.
   */
  lemma IntToDecimalDigits(n: int)
    ensures var r := IntToDecimal(n);
      var digits := if n < 0 then r[1..] else r;
      && |digits| >= 1
      && (forall i :: 0 <= i < |digits| ==> '0' <= digits[i] <= '9')
      && DecimalValue(digits) == (if n < 0 then -n else n)
      && (digits[0] == '0' ==> digits == "0")
  {
    if n < 0 {
      assert IntToDecimal(n)[1..] == NatToDecimal(-n);
    }
  }

  /**
   * The fields of a form body: the pieces between its `&` separators, in
   * order, as `String.prototype.split('&')` gives them.
   */
  function Fields(s: string): (r: seq<string>)
    ensures |r| >= 1
  {
    if s == [] then [""]
    else if s[0] == '&' then [""] + Fields(s[1..])
    else var rest := Fields(s[1..]); [[s[0]] + rest[0]] + rest[1..]
  }

  lemma {:induction false} FieldsOfField(a: string)
    requires '&' !in a
    ensures Fields(a) == [a]
  {
    if a != [] {
      FieldsOfField(a[1..]);
      assert [a[0]] + a[1..] == a;
    }
  }

  /** Joining two strings with a separator joins their field lists. */
  lemma {:induction false} FieldsOfConcat(a: string, b: string)
    ensures Fields(a + "&" + b) == Fields(a) + Fields(b)
  {
    if a == [] {
      assert a + "&" + b == "&" + b;
      assert ("&" + b)[1..] == b;
    } else {
      assert (a + "&" + b)[1..] == a[1..] + "&" + b;
      FieldsOfConcat(a[1..], b);
    }
  }

  /** A separator after a field that holds none ends that field. */
  lemma FieldsOfJoin(a: string, b: string)
    requires '&' !in a
    ensures Fields(a + "&" + b) == [a] + Fields(b)
  {
    FieldsOfConcat(a, b);
    FieldsOfField(a);
  }

  /** One `&selected_files[]=<f>` per selected file, in input order. */
  function FilesSuffix(files: seq<string>): string
  {
    if files == [] then "" else "&selected_files[]=" + files[0] + FilesSuffix(files[1..])
  }

  lemma SuffixSeparator()
    ensures "&selected_files[]=" == "&" + "selected_files[]="
  {
  }

  /** Appending a file to the selection appends its parameter to the suffix. */
  lemma {:induction false} FilesSuffixAppend(files: seq<string>, f: string)
    ensures FilesSuffix(files + [f]) == FilesSuffix(files) + "&selected_files[]=" + f
  {
    if files != [] {
      assert (files + [f])[1..] == files[1..] + [f];
      FilesSuffixAppend(files[1..], f);
    } else {
      assert ([] + [f])[1..] == [];
    }
  }

  /** The body `startDownload` puts to `/downloads`. */
  function DownloadBody(destination: string, uri: string, hops: int, files: seq<string>): string
  {
    DownloadPrefix(destination, uri, hops) + FilesSuffix(files)
  }

  /** Selecting one more file appends its parameter to the body. */
  lemma DownloadBodyAppend(destination: string, uri: string, hops: int, files: seq<string>, f: string)
    ensures DownloadBody(destination, uri, hops, files + [f])
         == DownloadBody(destination, uri, hops, files) + "&selected_files[]=" + f
  {
    FilesSuffixAppend(files, f);
  }

  function DownloadPrefix(destination: string, uri: string, hops: int): string
  {
    "anon_hops=" + IntToDecimal(hops) + "&safe_seeding=1&destination=" + destination + "&uri=" + uri
  }

  /** The fields the `selected_files[]` parameters read back as, file by file in input order. */
  function FileFields(files: seq<string>): seq<string>
  {
    if files == [] then [] else Fields("selected_files[]=" + files[0]) + FileFields(files[1..])
  }

  /** One `selected_files[]=<f>` field per file, in input order. */
  function FileParameters(files: seq<string>): seq<string>
  {
    if files == [] then [] else ["selected_files[]=" + files[0]] + FileParameters(files[1..])
  }

  /** Files without separators read back as exactly one parameter each. */
  lemma {:induction false} FileFieldsWithoutSeparators(files: seq<string>)
    requires forall f :: f in files ==> '&' !in f
    ensures FileFields(files) == FileParameters(files)
  {
    if files != [] {
      assert files[0] in files;
      NoSeparatorJoin("selected_files[]=", files[0]);
      FieldsOfField("selected_files[]=" + files[0]);
      forall f | f in files[1..] ensures '&' !in f {
        assert f in files;
      }
      FileFieldsWithoutSeparators(files[1..]);
    }
  }

  lemma {:induction false} FieldsOfSuffix(head: string, files: seq<string>)
    ensures Fields(head + FilesSuffix(files)) == Fields(head) + FileFields(files)
    decreases files
  {
    if files == [] {
      assert head + FilesSuffix(files) == head;
    } else {
      var next := "selected_files[]=" + files[0];
      var later := FilesSuffix(files[1..]);
      assert head + FilesSuffix(files) == head + "&" + (next + later) by {
        SuffixSeparator();
        assert FilesSuffix(files) == "&" + "selected_files[]=" + files[0] + later;
      }
      FieldsOfConcat(head, next + later);
      FieldsOfSuffix(next, files[1..]);
    }
  }

  /**
   * Read back as `&`-separated fields, the start-download body holds
   * `anon_hops=<h>` and `safe_seeding=1`, then the fields of
   * `destination=<d>`, of `uri=<u>` and of each `selected_files[]=<f>` in
   * input order. The values are not escaped, so a value holding `&` reads
   * back as more than one field.
   */
  lemma {:induction false} DownloadBodyFields(destination: string, uri: string, hops: int, files: seq<string>)
    ensures Fields(DownloadBody(destination, uri, hops, files))
         == ["anon_hops=" + IntToDecimal(hops), "safe_seeding=1"]
            + (Fields("destination=" + destination) + (Fields("uri=" + uri) + FileFields(files)))
  {
    var h := "anon_hops=" + IntToDecimal(hops);
    SplitPrefix(h, destination, uri, FilesSuffix(files));
    NoSeparatorJoin("anon_hops=", IntToDecimal(hops));
    FieldsOfParameters(h, "safe_seeding=1", "destination=" + destination, "uri=" + uri, files);
  }

  lemma FieldsOfParameters(p1: string, p2: string, p3: string, p4: string, files: seq<string>)
    requires '&' !in p1 && '&' !in p2
    ensures Fields(p1 + "&" + (p2 + "&" + (p3 + "&" + (p4 + FilesSuffix(files)))))
         == [p1, p2] + (Fields(p3) + (Fields(p4) + FileFields(files)))
  {
    var tail := p4 + FilesSuffix(files);
    var rest2 := p3 + "&" + tail;
    var rest1 := p2 + "&" + rest2;
    FieldsOfSuffix(p4, files);
    FieldsOfConcat(p3, tail);
    FieldsOfJoin(p2, rest2);
    FieldsOfJoin(p1, rest1);
  }

  /**
   * When no value holds a `&`, the start-download body reads back as exactly
   * the four fixed parameters and one `selected_files[]` field per file, in
   * order; with no file selected, just the four.
   */
  lemma DownloadBodyFieldsWithoutSeparators(destination: string, uri: string, hops: int, files: seq<string>)
    requires '&' !in destination && '&' !in uri
    requires forall f :: f in files ==> '&' !in f
    ensures Fields(DownloadBody(destination, uri, hops, files))
         == ["anon_hops=" + IntToDecimal(hops), "safe_seeding=1", "destination=" + destination, "uri=" + uri]
            + FileParameters(files)
  {
    var h := "anon_hops=" + IntToDecimal(hops);
    var d := "destination=" + destination;
    var u := "uri=" + uri;
    DownloadBodyFields(destination, uri, hops, files);
    NoSeparatorJoin("destination=", destination);
    NoSeparatorJoin("uri=", uri);
    FieldsOfField(d);
    FieldsOfField(u);
    FileFieldsWithoutSeparators(files);
    FourFields(h, "safe_seeding=1", d, u, FileParameters(files));
  }

  lemma FourFields(a: string, b: string, c: string, d: string, rest: seq<string>)
    ensures [a, b] + ([c] + ([d] + rest)) == [a, b, c, d] + rest
  {
  }

  lemma NoSeparatorJoin(a: string, b: string)
    requires '&' !in a && '&' !in b
    ensures '&' !in a + b
  {
  }

  lemma SplitPrefix(h: string, destination: string, uri: string, suffix: string)
    ensures h + "&safe_seeding=1&destination=" + destination + "&uri=" + uri + suffix
         == h + "&" + ("safe_seeding=1" + "&" + (("destination=" + destination) + "&" + (("uri=" + uri) + suffix)))
  {
    var d, u := "destination=" + destination, "uri=" + uri;
    SplitLiterals();
    assert h + "&safe_seeding=1&destination=" + destination == h + "&" + ("safe_seeding=1" + "&" + d);
    assert h + "&safe_seeding=1&destination=" + destination + "&uri=" + uri
        == h + "&" + ("safe_seeding=1" + "&" + (d + "&" + u));
  }

  lemma SplitLiterals()
    ensures "&safe_seeding=1&destination=" == "&" + "safe_seeding=1" + "&" + "destination="
    ensures "&uri=" == "&" + "uri="
  {
  }

  /** The magnet link the torrent list's play action downloads. */
  function MagnetUri(infohash: string, name: string): string
  {
    "magnet:?xt=urn:btih:" + infohash + "&dn=" + name
  }

  /**
   * The body of a download of a torrent's magnet link, as written: the
   * link's `dn=<name>` part reads back as a field of its own, no longer part
   * of `uri`. The torrent list's play action sends such a body with an empty
   * destination, no hops and no selected files.
   */
  lemma MagnetBodyFields(destination: string, hops: int, infohash: string, name: string)
    requires '&' !in destination && '&' !in infohash && '&' !in name
    ensures Fields(DownloadBody(destination, MagnetUri(infohash, name), hops, []))
         == ["anon_hops=" + IntToDecimal(hops), "safe_seeding=1", "destination=" + destination,
             "uri=magnet:?xt=urn:btih:" + infohash, "dn=" + name]
  {
    var d := "destination=" + destination;
    DownloadBodyFields(destination, MagnetUri(infohash, name), hops, []);
    NoSeparatorJoin("destination=", destination);
    FieldsOfField(d);
    MagnetUriFields(infohash, name);
    FiveFields("anon_hops=" + IntToDecimal(hops), "safe_seeding=1", d,
      "uri=magnet:?xt=urn:btih:" + infohash, "dn=" + name);
  }

  lemma FiveFields(a: string, b: string, c: string, d: string, e: string)
    ensures [a, b] + ([c] + ([d, e] + FileFields([]))) == [a, b, c, d, e]
  {
  }

  /** The play action's own call: empty destination, no hops, no selected files. */
  lemma PlayBodyFields(infohash: string, name: string)
    requires '&' !in infohash && '&' !in name
    ensures Fields(DownloadBody("", MagnetUri(infohash, name), 0, []))
         == ["anon_hops=0", "safe_seeding=1", "destination=", "uri=magnet:?xt=urn:btih:" + infohash, "dn=" + name]
  {
    MagnetBodyFields("", 0, infohash, name);
    assert "anon_hops=" + IntToDecimal(0) == "anon_hops=0";
    assert "destination=" + "" == "destination=";
  }

  lemma MagnetUriFields(infohash: string, name: string)
    requires '&' !in infohash && '&' !in name
    ensures Fields("uri=" + MagnetUri(infohash, name)) == ["uri=magnet:?xt=urn:btih:" + infohash, "dn=" + name]
  {
    var first := "uri=magnet:?xt=urn:btih:" + infohash;
    var second := "dn=" + name;
    MagnetUriSplit(infohash, name);
    NoSeparatorJoin("uri=magnet:?xt=urn:btih:", infohash);
    NoSeparatorJoin("dn=", name);
    FieldsOfJoin(first, second);
    FieldsOfField(second);
  }

  lemma MagnetUriSplit(infohash: string, name: string)
    ensures "uri=" + MagnetUri(infohash, name) == ("uri=magnet:?xt=urn:btih:" + infohash) + "&" + ("dn=" + name)
  {
    MagnetLiterals();
  }

  lemma MagnetLiterals()
    ensures "uri=" + "magnet:?xt=urn:btih:" == "uri=magnet:?xt=urn:btih:"
    ensures "&dn=" == "&" + "dn="
  {
  }

  /** A value with `&` and `%` percent-escaped, so that it holds no separator. */
  function Escape(s: string): (r: string)
    ensures '&' !in r
  {
    if s == [] then []
    else (if s[0] == '&' then "%26" else if s[0] == '%' then "%25" else [s[0]]) + Escape(s[1..])
  }

  /** Undoes the escapes `%26` and `%25`. */
  function Unescape(s: string): string
  {
    if |s| >= 3 && s[0] == '%' && s[1] == '2' && s[2] == '6' then "&" + Unescape(s[3..])
    else if |s| >= 3 && s[0] == '%' && s[1] == '2' && s[2] == '5' then "%" + Unescape(s[3..])
    else if s == [] then []
    else [s[0]] + Unescape(s[1..])
  }

  /** Every escaped value reads back as the original. */
  lemma {:induction false} UnescapeEscape(s: string)
    ensures Unescape(Escape(s)) == s
  {
    if s != [] {
      var rest := Escape(s[1..]);
      UnescapeEscape(s[1..]);
      if s[0] == '&' {
        assert Escape(s) == "%26" + rest;
        assert ("%26" + rest)[3..] == rest;
      } else if s[0] == '%' {
        assert Escape(s) == "%25" + rest;
        assert ("%25" + rest)[3..] == rest;
      } else {
        assert Escape(s) == [s[0]] + rest;
        assert ([s[0]] + rest)[1..] == rest;
      }
      assert [s[0]] + s[1..] == s;
    }
  }

  function EscapeAll(files: seq<string>): (r: seq<string>)
    ensures |r| == |files|
    ensures forall i :: 0 <= i < |r| ==> r[i] == Escape(files[i])
  {
    if files == [] then [] else [Escape(files[0])] + EscapeAll(files[1..])
  }

  /** The start-download body with every value escaped. */
  function EscapedDownloadBody(destination: string, uri: string, hops: int, files: seq<string>): string
  {
    DownloadBody(Escape(destination), Escape(uri), hops, EscapeAll(files))
  }

  /**
   * With its values escaped, every start-download body reads back as exactly
   * the four fixed parameters and one `selected_files[]` field per file, in
   * order, each holding an escaped value that `Unescape` turns back into the
   * original.
   */
  lemma EscapedDownloadBodyFields(destination: string, uri: string, hops: int, files: seq<string>)
    ensures Fields(EscapedDownloadBody(destination, uri, hops, files))
         == ["anon_hops=" + IntToDecimal(hops), "safe_seeding=1", "destination=" + Escape(destination), "uri=" + Escape(uri)]
            + FileParameters(EscapeAll(files))
    ensures Unescape(Escape(destination)) == destination && Unescape(Escape(uri)) == uri
    ensures forall i :: 0 <= i < |files| ==> Unescape(EscapeAll(files)[i]) == files[i]
  {
    var escaped := EscapeAll(files);
    forall f | f in escaped ensures '&' !in f {
      var i :| 0 <= i < |escaped| && escaped[i] == f;
    }
    DownloadBodyFieldsWithoutSeparators(Escape(destination), Escape(uri), hops, escaped);
    UnescapeEscape(destination);
    UnescapeEscape(uri);
    forall i | 0 <= i < |files| ensures Unescape(escaped[i]) == files[i] {
      UnescapeEscape(files[i]);
    }
  }

  /** The body `removeDownload` sends with its DELETE: whether the downloaded data goes too. */
  function RemoveDownloadBody(removeData: bool): (r: string)
    ensures r == "remove_data=1" <==> removeData
    ensures r == "remove_data=0" <==> !removeData
  {
    var r := "remove_data=" + [if removeData then '1' else '0'];
    assert r[12] == (if removeData then '1' else '0');
    r
  }
}
