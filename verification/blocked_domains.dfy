/** The `blocked` cookie that carries the user's blocked-domain list
    (`get_blocked_domains` and `set_blocked_domains` in src/web/mod.rs): the
    domains joined by commas, as UTF-8, in standard base64. Reading is
    best-effort: anything malformed reads as the empty list. */
module BlockedDomains {
  import opened Wrappers
  import Text
  import Utf8
  import Base64

  const CookieName: string := "blocked"

  /** What `set_blocked_domains` puts in front of the value. */
  const CookiePrefix: string := "blocked="

  /** Values longer than this many bytes are ignored (the "500 kb" limit). */
  const MaxValueBytes: nat := 500000

  const Separator: char := ','

  /** The longest joined text, in bytes, whose encoding fits in `MaxValueBytes`. */
  const MaxTextBytes: nat := 375000

  /** Base64 of `n` bytes takes `4 * ceil(n / 3)` characters, which is within
      the cookie limit exactly when `n` is within `MaxTextBytes`. */
  lemma EncodedLengthFits(n: nat)
    ensures (n + 2) / 3 * 4 <= MaxValueBytes <==> n <= MaxTextBytes
  {
    if n <= MaxTextBytes {
      assert (n + 2) / 3 <= 125000;
    } else {
      assert (n + 2) / 3 >= 125001;
    }
  }

  /** A domain as the reader yields it: non-empty, without surrounding
      whitespace, without a comma. */
  predicate IsDomainEntry(d: string) {
    |d| > 0 && Text.IsTrimmed(d) && Separator !in d
  }

  /** `.map(|d| d.trim().to_string()).filter(|d| !d.is_empty())` over the pieces. */
  function KeepDomains(pieces: seq<string>): seq<string>
  {
    if |pieces| == 0 then [] else KeptPiece(pieces[0]) + KeepDomains(pieces[1..])
  }

  /** What the trim-and-filter step keeps of one piece. */
  function KeptPiece(piece: string): seq<string> {
    if |Text.Trim(piece)| == 0 then [] else [Text.Trim(piece)]
  }

  /** The trim-and-filter step keeps at most one entry per piece, each
      non-empty and trimmed, and adds no comma to pieces without one. */
  lemma {:induction false} KeepDomainsEntries(pieces: seq<string>)
    requires forall i :: 0 <= i < |pieces| ==> Separator !in pieces[i]
    ensures |KeepDomains(pieces)| <= |pieces|
    ensures forall i :: 0 <= i < |KeepDomains(pieces)| ==> IsDomainEntry(KeepDomains(pieces)[i])
  {
    if |pieces| > 0 {
      KeepDomainsEntries(pieces[1..]);
      Text.TrimKeepsAbsent(pieces[0], Separator);
    }
  }

  /** The text of the cookie read as a domain list. */
  function ParseDomainList(text: string): (r: seq<string>)
    ensures forall i :: 0 <= i < |r| ==> IsDomainEntry(r[i])
  {
    KeepDomainsEntries(Text.Split(text, Separator));
    KeepDomains(Text.Split(text, Separator))
  }

  /** Empty text holds no domains: its one piece is empty and is dropped. */
  lemma ParseEmptyText()
    ensures ParseDomainList("") == []
  {
    assert Text.Split("", Separator) == [""];
    assert Text.TrimStart("") == "";
    assert Text.Trim("") == "";
    assert KeptPiece("") == [];
    assert KeepDomains([""]) == KeptPiece("") + KeepDomains([]);
  }

  /** `get_blocked_domains`, collected into a list. */
  function GetBlockedDomains(cookies: map<string, string>): (r: seq<string>)
    ensures CookieName !in cookies ==> r == []
    ensures CookieName in cookies && |Utf8.Encode(cookies[CookieName])| > MaxValueBytes ==> r == []
    ensures CookieName in cookies && Base64.Decode(cookies[CookieName]).None? ==> r == []
    ensures (CookieName in cookies && Base64.Decode(cookies[CookieName]).Some?
             && Utf8.Decode(Base64.Decode(cookies[CookieName]).value).None?) ==> r == []
    ensures forall i :: 0 <= i < |r| ==> IsDomainEntry(r[i])
  {
    if CookieName !in cookies then []
    else
      var value := cookies[CookieName];
      if |Utf8.Encode(value)| > MaxValueBytes then []
      else
        var bytes := Base64.Decode(value).GetOr([]);
        var text := Utf8.Decode(bytes).GetOr("");
        assert Utf8.Decode([]) == Some("");
        ParseEmptyText();
        ParseDomainList(text)
  }

  /** The cookie value `set_blocked_domains` writes after `blocked=`. */
  function EncodeDomainList(domains: seq<string>): (v: string)
    ensures Base64.Decode(v) == Some(Utf8.Encode(Text.Join(domains, Separator)))
    ensures domains == [] ==> v == ""
  {
    var v := Base64.Encode(Utf8.Encode(Text.Join(domains, Separator)));
    Base64.DecodeEncode(Utf8.Encode(Text.Join(domains, Separator)));
    v
  }

  /** `set_blocked_domains`: the loop that joins the domains with commas,
      then the encoding of the joined text. */
  method SetBlockedDomains(domains: seq<string>) returns (cookie: string)
    ensures cookie == CookiePrefix + EncodeDomainList(domains)
    ensures domains == [] ==> cookie == CookiePrefix
  {
    var firstIter := true;
    var built := "";
    for i := 0 to |domains|
      invariant firstIter <==> i == 0
      invariant built == Text.Join(domains[..i], Separator)
    {
      if firstIter {
        firstIter := false;
      } else {
        built := built + [Separator];
      }
      built := built + domains[i];
      JoinSnoc(domains[..i + 1], Separator);
      assert domains[..i + 1][..i] == domains[..i];
    }
    assert domains[..|domains|] == domains;
    cookie := CookiePrefix + Base64.Encode(Utf8.Encode(built));
  }

  /** Appending one piece to a joined list adds one separator, except to the empty list. */
  lemma {:induction false} JoinSnoc(xs: seq<string>, sep: char)
    requires |xs| >= 1
    ensures Text.Join(xs, sep) ==
      (if |xs| == 1 then xs[0] else Text.Join(xs[..|xs| - 1], sep) + [sep] + xs[|xs| - 1])
  {
    if |xs| == 2 {
      assert Text.Join(xs[1..], sep) == xs[1];
      assert Text.Join(xs[..1], sep) == xs[0];
    } else if |xs| > 2 {
      var front := xs[..|xs| - 1];
      JoinSnoc(xs[1..], sep);
      assert xs[1..][..|xs| - 2] == front[1..];
      assert xs[1..][|xs| - 2] == xs[|xs| - 1];
      assert front[0] == xs[0];
      assert Text.Join(front, sep) == xs[0] + [sep] + Text.Join(front[1..], sep);
      assert Text.Join(xs, sep) == xs[0] + [sep] + Text.Join(xs[1..], sep);
    }
  }

  /** Pieces that are already domain entries pass the trim-and-filter step unchanged. */
  lemma {:induction false} KeepDomainEntries(xs: seq<string>)
    requires forall i :: 0 <= i < |xs| ==> IsDomainEntry(xs[i])
    ensures KeepDomains(xs) == xs
  {
    if |xs| > 0 {
      Text.TrimOfTrimmed(xs[0]);
      KeepDomainEntries(xs[1..]);
    }
  }

  /** The trim-and-filter step on a non-empty list starts with its first piece. */
  lemma KeepDomainsCons(p: seq<string>)
    requires |p| > 0
    ensures KeepDomains(p) == KeptPiece(p[0]) + KeepDomains(p[1..])
  {
  }

  /** The inductive step of `KeepDomainsAppend`. */
  lemma KeepDomainsAppendStep(a: seq<string>, b: seq<string>)
    requires |a| > 0
    requires KeepDomains(a[1..] + b) == KeepDomains(a[1..]) + KeepDomains(b)
    ensures KeepDomains(a + b) == KeepDomains(a) + KeepDomains(b)
  {
    HeadTail(a, b);
    KeepDomainsCons(a + b);
    KeepDomainsCons(a);
    Associative(KeptPiece(a[0]), KeepDomains(a[1..]), KeepDomains(b));
  }

  /** The head and tail of a concatenation with a non-empty front; a named
      instance keeps these sequence facts out of the step's own context. */
  lemma HeadTail<T>(a: seq<T>, b: seq<T>)
    requires |a| > 0
    ensures (a + b)[0] == a[0] && (a + b)[1..] == a[1..] + b
  {
  }

  /** Concatenation is associative (a named instance, as above). */
  lemma Associative<T>(x: seq<T>, y: seq<T>, z: seq<T>)
    ensures x + (y + z) == (x + y) + z
  {
  }

  /** Trimming and filtering work piece by piece. */
  lemma {:induction false} KeepDomainsAppend(a: seq<string>, b: seq<string>)
    ensures KeepDomains(a + b) == KeepDomains(a) + KeepDomains(b)
  {
    if |a| > 0 {
      KeepDomainsAppend(a[1..], b);
      KeepDomainsAppendStep(a, b);
    } else {
      assert a + b == b;
    }
  }

  /** Domains come out in the order of the text: the domains before a comma
      precede those after it. */
  lemma ParseDomainListAppend(a: string, b: string)
    ensures ParseDomainList(a + [Separator] + b) == ParseDomainList(a) + ParseDomainList(b)
  {
    Text.SplitAppend(a, Separator, b);
    KeepDomainsAppend(Text.Split(a, Separator), Text.Split(b, Separator));
  }

  /** Reading back what was written: a list of domain entries whose encoded
      value fits the size limit is recovered exactly, in order. */
  lemma RoundTrip(domains: seq<string>)
    requires forall i :: 0 <= i < |domains| ==> IsDomainEntry(domains[i])
    requires |Utf8.Encode(Text.Join(domains, Separator))| <= MaxTextBytes
    ensures GetBlockedDomains(map[CookieName := EncodeDomainList(domains)]) == domains
  {
    var text := Text.Join(domains, Separator);
    var value := EncodeDomainList(domains);
    ValueFits(domains);
    assert Utf8.Decode(Base64.Decode(value).value) == Some(text) by {
      Utf8.DecodeEncode(text);
    }
    assert ParseDomainList(text) == domains by {
      if |domains| == 0 {
        assert text == "";
        ParseEmptyText();
      } else {
        Text.SplitJoin(domains, Separator);
        KeepDomainEntries(domains);
      }
    }
  }

  /** A joined text within `MaxTextBytes` gives a cookie value within the limit. */
  lemma ValueFits(domains: seq<string>)
    requires |Utf8.Encode(Text.Join(domains, Separator))| <= MaxTextBytes
    ensures |Utf8.Encode(EncodeDomainList(domains))| <= MaxValueBytes
  {
    var bytes := Utf8.Encode(Text.Join(domains, Separator));
    var value := Base64.Encode(bytes);
    assert |value| <= MaxValueBytes by {
      EncodedLengthFits(|bytes|);
    }
    Base64.EncodeIsAscii(bytes);
    Utf8.EncodeAsciiLength(value);
  }
}
