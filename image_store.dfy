/**
 * The image pool: an ordered list of submitted image urls with their
 * submitter and submission time. Adding refuses duplicates and urls that fail
 * validation; removing drops every entry with the url; a random pick returns
 * one stored url.
 */
module ImageStore {
  import opened Common

  datatype ImgEntry = ImgEntry(url: string, submittedBy: string, timestamp: real)

  /** The characters Python's `str.isspace` accepts. */
  predicate IsSpace(c: char) {
    var n := c as int;
    || 0x09 <= n <= 0x0d || 0x1c <= n <= 0x20 || n == 0x85 || n == 0xa0 || n == 0x1680
    || 0x2000 <= n <= 0x200a || n == 0x2028 || n == 0x2029 || n == 0x202f || n == 0x205f || n == 0x3000
  }

  /** Drops leading whitespace. */
  function StripLeading(s: string): (r: string)
    ensures |r| <= |s| && r == s[|s| - |r|..]
    ensures forall i :: 0 <= i < |s| - |r| ==> IsSpace(s[i])
    ensures r != [] ==> !IsSpace(r[0])
  {
    if s != [] && IsSpace(s[0]) then
      var r := StripLeading(s[1..]);
      assert forall i :: 1 <= i < |s| ==> s[1..][i - 1] == s[i];
      r
    else s
  }

  /** Drops trailing whitespace. */
  function StripTrailing(s: string): (r: string)
    ensures |r| <= |s| && r == s[..|r|]
    ensures forall i :: |r| <= i < |s| ==> IsSpace(s[i])
    ensures r != [] ==> !IsSpace(r[|r| - 1])
  {
    if s != [] && IsSpace(s[|s| - 1]) then
      var r := StripTrailing(s[..|s| - 1]);
      assert r == s[..|r|];
      r
    else s
  }

  /** `str.strip()`: neither starts nor ends with whitespace. */
  function Strip(s: string): (r: string)
    ensures |r| <= |s|
    ensures r != [] ==> !IsSpace(r[0]) && !IsSpace(r[|r| - 1])
  {
    StripTrailing(StripLeading(s))
  }

  /** The number of leading whitespace characters of `s`. */
  function LeadingSpaces(s: string): (n: nat)
    ensures n <= |s| && forall k :: 0 <= k < n ==> IsSpace(s[k])
    ensures n < |s| ==> !IsSpace(s[n])
  {
    |s| - |StripLeading(s)|
  }

  /** `Strip` keeps the slice of the input that starts after its leading whitespace. */
  lemma StripIsSlice(s: string)
    ensures LeadingSpaces(s) + |Strip(s)| <= |s|
    ensures Strip(s) == s[LeadingSpaces(s)..LeadingSpaces(s) + |Strip(s)|]
  {
    var left := StripLeading(s);
    var i := |s| - |left|;
    assert left[..|Strip(s)|] == s[i..][..|Strip(s)|] == s[i..i + |Strip(s)|];
  }

  /** Everything `Strip` drops after the kept slice is whitespace. */
  lemma StripDropsTrailingSpace(s: string)
    ensures forall k :: LeadingSpaces(s) + |Strip(s)| <= k < |s| ==> IsSpace(s[k])
  {
    var left := StripLeading(s);
    var i := |s| - |left|;
    var r := StripTrailing(left);
    assert r == Strip(s);
    assert left == s[i..];
    forall k | i + |r| <= k < |s| ensures IsSpace(s[k]) {
      var j := k - i;
      assert |r| <= j < |left| && IsSpace(left[j]);
      assert s[k] == left[j];
    }
  }

  /** Stripping twice is stripping once. */
  lemma StripIdempotent(s: string)
    ensures Strip(Strip(s)) == Strip(s)
  {
    var r := Strip(s);
    if r != [] {
      assert !IsSpace(r[0]) && StripLeading(r) == r;
      assert !IsSpace(r[|r| - 1]) && StripTrailing(r) == r;
    }
  }

  /** Some entry has this url. */
  predicate HasUrl(imgs: seq<ImgEntry>, url: string) {
    exists i :: 0 <= i < |imgs| && imgs[i].url == url
  }

  /** No url is stored twice. */
  predicate UniqueUrls(imgs: seq<ImgEntry>) {
    forall i, j :: 0 <= i < j < |imgs| ==> imgs[i].url != imgs[j].url
  }

  /** `[g for g in imgs if g.url != url]` */
  function WithoutUrl(imgs: seq<ImgEntry>, url: string): (r: seq<ImgEntry>)
    ensures forall e :: e in r <==> e in imgs && e.url != url
    ensures forall e :: multiset(r)[e] == if e.url != url then multiset(imgs)[e] else 0
    ensures Subsequence(r, imgs)
    ensures !HasUrl(r, url)
  {
    if imgs == [] then []
    else
      var rest := WithoutUrl(imgs[1..], url);
      assert imgs == [imgs[0]] + imgs[1..];
      if imgs[0].url != url then [imgs[0]] + rest else rest
  }

  /** A filtered list keeps its urls unique. */
  lemma {:induction false} WithoutUrlKeepsUnique(imgs: seq<ImgEntry>, url: string)
    requires UniqueUrls(imgs)
    ensures UniqueUrls(WithoutUrl(imgs, url))
  {
    if imgs != [] {
      assert UniqueUrls(imgs[1..]) by {
        forall i, j | 0 <= i < j < |imgs[1..]| ensures imgs[1..][i].url != imgs[1..][j].url {
          assert imgs[1..][i] == imgs[i + 1] && imgs[1..][j] == imgs[j + 1];
        }
      }
      WithoutUrlKeepsUnique(imgs[1..], url);
      var rest := WithoutUrl(imgs[1..], url);
      var r := WithoutUrl(imgs, url);
      if imgs[0].url != url {
        assert r == [imgs[0]] + rest;
        forall i, j | 0 <= i < j < |r| ensures r[i].url != r[j].url {
          assert r[j] == rest[j - 1];
          if i == 0 {
            assert rest[j - 1] in imgs[1..];
          } else {
            assert r[i] == rest[i - 1];
          }
        }
      } else {
        assert r == rest;
      }
    }
  }

  /** Appending an entry whose url is not stored keeps the urls unique. */
  lemma AppendKeepsUnique(imgs: seq<ImgEntry>, e: ImgEntry)
    requires !HasUrl(imgs, e.url)
    ensures UniqueUrls(imgs) ==> UniqueUrls(imgs + [e])
  {
    var r := imgs + [e];
    forall i | 0 <= i < |imgs| ensures r[i] == imgs[i] && r[i].url != e.url {
    }
  }

  const AlreadyInPool: string := "Image already in pool."
  const InvalidUrl: string := "Invalid image url."

  class ImgStore {
    const path: string
    var imgs: seq<ImgEntry>

    /** Starts from the entries read from the store's file (empty when there is none). */
    constructor (path: string, loaded: seq<ImgEntry>)
      ensures this.path == path && imgs == loaded
    {
      this.path := path;
      imgs := loaded;
    }

    /**
     * `add_img`: strips the url, refuses it when already stored (before any
     * validation) or when `validate` rejects it, and otherwise appends it with
     * the submitter and the time `now`.
     */
    method AddImg(url: string, submittedBy: string, validate: string -> bool, now: real)
      returns (ok: bool, message: string)
      modifies this`imgs
      ensures HasUrl(old(imgs), Strip(url)) ==> !ok && message == AlreadyInPool && imgs == old(imgs)
      ensures !HasUrl(old(imgs), Strip(url)) && !validate(Strip(url)) ==>
                !ok && message == InvalidUrl && imgs == old(imgs)
      ensures !HasUrl(old(imgs), Strip(url)) && validate(Strip(url)) ==>
                ok && message == "" && imgs == old(imgs) + [ImgEntry(Strip(url), submittedBy, now)]
      ensures UniqueUrls(old(imgs)) ==> UniqueUrls(imgs)
    {
      var u := Strip(url);
      if HasUrl(imgs, u) {
        return false, AlreadyInPool;
      }
      if validate(u) {
        AppendKeepsUnique(imgs, ImgEntry(u, submittedBy, now));
        imgs := imgs + [ImgEntry(u, submittedBy, now)];
        return true, "";
      }
      return false, InvalidUrl;
    }

    /** `get_random_img`: none from an empty pool, otherwise the url of the entry at the random position. */
    method GetRandomImg(pick: nat) returns (r: Option<string>)
      ensures r == None <==> imgs == []
      ensures r.Some? ==> HasUrl(imgs, r.value)
    {
      if imgs == [] {
        return None;
      }
      var k := pick % |imgs|;
      return Some(imgs[k].url);
    }

    /** `remove_img`: drops every entry with exactly this url, keeping the rest in order. */
    method RemoveImg(url: string)
      modifies this`imgs
      ensures imgs == WithoutUrl(old(imgs), url)
      ensures UniqueUrls(old(imgs)) ==> UniqueUrls(imgs)
    {
      if UniqueUrls(imgs) {
        WithoutUrlKeepsUnique(imgs, url);
      }
      imgs := WithoutUrl(imgs, url);
    }
  }
}
