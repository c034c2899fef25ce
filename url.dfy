/**
 * get_ext_from_url: the file extension of a download URL, taken from the
 * suffix of the URL's path component, or a default when the path has none.
 * The path comes from a model of urllib.parse.urlparse and the suffix from a
 * model of pathlib's PurePosixPath.name and .suffix.
 */
module UrlExt {
  import opened Text

  predicate IsAsciiLetter(c: char)
  {
    ('a' <= c <= 'z') || ('A' <= c <= 'Z')
  }

  /** Characters urlsplit accepts in a scheme name. */
  predicate IsSchemeChar(c: char)
  {
    IsAsciiLetter(c) || ('0' <= c <= '9') || c == '+' || c == '-' || c == '.'
  }

  /** C0 control characters and the space, which urlsplit strips from the front. */
  predicate IsControlOrSpace(c: char)
  {
    c <= ' '
  }

  /** Tab, carriage return and line feed, which urlsplit deletes everywhere. */
  predicate IsUnsafe(c: char)
  {
    c == '\t' || c == '\r' || c == '\n'
  }

  predicate IsKeptChar(c: char)
  {
    !IsUnsafe(c)
  }

  predicate IsNetlocEnd(c: char)
  {
    c == '/' || c == '?' || c == '#'
  }

  /** What is left of the URL once a well-formed "scheme:" prefix is removed. */
  function DropScheme(url: string): (r: string)
    ensures |r| <= |url|
  {
    var i := Find(url, ':');
    if i > 0 && IsAsciiLetter(url[0]) && forall k :: 0 <= k < i ==> IsSchemeChar(url[k])
    then url[i + 1..]
    else url
  }

  /** What is left once a "//netloc" authority is removed: the netloc runs up
      to the first '/', '?' or '#'. */
  function DropNetloc(rest: string): (r: string)
    ensures |r| <= |rest|
  {
    if |rest| >= 2 && rest[..2] == "//" then
      var tail := rest[2..];
      tail[FirstWhere(tail, IsNetlocEnd)..]
    else rest
  }

  /** The path component urlparse reports for `url`. */
  function UrlPath(url: string): (path: string)
    ensures '?' !in path && '#' !in path
  {
    var cleaned := Filter(TrimLeft(url, IsControlOrSpace), IsKeptChar);
    var rest := DropNetloc(DropScheme(cleaned));
    Before(Before(rest, '#'), '?')
  }

  /** PurePosixPath(path).name: the last component, ignoring empty and "."
      components; empty when there is none. */
  function PathName(path: string): (name: string)
    ensures '/' !in name
    ensures name != "."
    decreases |path|
  {
    var j := RFind(path, '/');
    var last := path[j + 1..];
    assert '/' !in last;
    if last != "" && last != "." then last
    else if j < 0 then ""
    else PathName(path[..j])
  }

  /** PurePath.suffix: from the last '.' of the name, unless that dot is the
      first or the last character; otherwise empty. */
  function Suffix(name: string): (ext: string)
    ensures ext == [] || (2 <= |ext| < |name| && ext[0] == '.' && ext == name[|name| - |ext|..])
    ensures ext != [] ==> forall k :: 1 <= k < |ext| ==> ext[k] != '.'
    ensures ext != [] <==> |name| >= 2 && name[|name| - 1] != '.' && exists i :: 0 < i < |name| && name[i] == '.'
  {
    var i := RFind(name, '.');
    if 0 < i < |name| - 1 then name[i..] else ""
  }

  /** The extension used for the cache and destination files of `url`. */
  function GetExtFromUrl(url: string, defaultExt: string): (r: string)
    ensures r == defaultExt || (|r| >= 2 && r[0] == '.')
    ensures r != defaultExt ==> forall k :: 1 <= k < |r| ==> r[k] != '.' && r[k] != '/'
    ensures defaultExt != [] ==> r != []
    ensures Suffix(PathName(UrlPath(url))) == [] ==> r == defaultExt
    ensures Suffix(PathName(UrlPath(url))) != [] ==> r == Suffix(PathName(UrlPath(url)))
  {
    var name := PathName(UrlPath(url));
    var ext := Suffix(name);
    SuffixOfSlashFree(name);
    if ext != [] then ext else defaultExt
  }

  lemma SuffixOfSlashFree(name: string)
    requires '/' !in name
    ensures forall k :: 0 <= k < |Suffix(name)| ==> Suffix(name)[k] != '/'
  {
    var ext := Suffix(name);
    forall k | 0 <= k < |ext| ensures ext[k] != '/' {
      assert ext[k] == name[|name| - |ext| + k];
    }
  }

  /** A character that may appear inside the path of a URL unchanged. */
  predicate IsPathChar(c: char)
  {
    c > ' ' && c != '?' && c != '#' && c != ';'
  }

  /** For "scheme://host/path" followed by an optional query or fragment,
      the path component is exactly "/path". */
  lemma UrlPathOfAbsoluteUrl(scheme: string, host: string, path: string, rest: string)
    requires IsScheme(scheme)
    requires IsHost(host)
    requires path == [] || path[0] == '/'
    requires forall k :: 0 <= k < |path| ==> IsPathChar(path[k])
    requires rest == [] || rest[0] == '?' || rest[0] == '#'
    requires forall k :: 0 <= k < |rest| ==> rest[k] > ' '
    ensures UrlPath(scheme + "://" + host + path + rest) == path
  {
    var afterScheme := "//" + host + (path + rest);
    SchemeSplit(scheme, host, path + rest);
    assert scheme + "://" + host + path + rest == scheme + "://" + host + (path + rest);
    AuthorityVisible(host, path, rest);
    UrlPathAfterScheme(scheme, afterScheme);
    DropNetlocOf(host, path + rest);
    CutQueryAndFragment(path, rest);
  }

  /** "scheme://host..." is "scheme:" followed by "//host...". */
  lemma SchemeSplit(scheme: string, host: string, tail: string)
    ensures scheme + "://" + host + tail == scheme + ":" + ("//" + host + tail)
  {
  }

  /** For a visible URL with a well-formed scheme, the path is what follows
      the netloc, up to the query or fragment. */
  lemma UrlPathAfterScheme(scheme: string, after: string)
    requires IsScheme(scheme)
    requires forall k :: 0 <= k < |after| ==> after[k] > ' '
    ensures UrlPath(scheme + ":" + after) == Before(Before(DropNetloc(after), '#'), '?')
  {
    VisibleUrl(scheme, after);
    DropSchemeOf(scheme, after);
  }

  lemma AuthorityVisible(host: string, path: string, rest: string)
    requires IsHost(host)
    requires forall k :: 0 <= k < |path| ==> IsPathChar(path[k])
    requires forall k :: 0 <= k < |rest| ==> rest[k] > ' '
    ensures forall k :: 0 <= k < |"//" + host + (path + rest)| ==> ("//" + host + (path + rest))[k] > ' '
  {
    var s := "//" + host + (path + rest);
    forall k | 0 <= k < |s| ensures s[k] > ' ' {
      if 2 <= k < 2 + |host| {
        assert s[k] == host[k - 2];
      } else if 2 + |host| <= k < 2 + |host| + |path| {
        assert s[k] == path[k - 2 - |host|];
      } else if k >= 2 + |host| + |path| {
        assert s[k] == rest[k - 2 - |host| - |path|];
      }
    }
  }

  predicate IsScheme(scheme: string)
  {
    scheme != [] && IsAsciiLetter(scheme[0]) && forall k :: 0 <= k < |scheme| ==> IsSchemeChar(scheme[k])
  }

  /** A printable ASCII character that may appear in a netloc without ending it
      and without opening or closing an IPv6 literal. Brackets and non-ASCII
      netlocs are where urlsplit may raise ValueError. */
  predicate IsHostChar(c: char)
  {
    ' ' < c <= '\U{7F}' && !IsNetlocEnd(c) && c != '[' && c != ']'
  }

  predicate IsHost(host: string)
  {
    forall k :: 0 <= k < |host| ==> IsHostChar(host[k])
  }

  /** A URL without control characters or spaces passes urlsplit's cleaning unchanged. */
  lemma VisibleUrl(scheme: string, after: string)
    requires IsScheme(scheme)
    requires forall k :: 0 <= k < |after| ==> after[k] > ' '
    ensures Filter(TrimLeft(scheme + ":" + after, IsControlOrSpace), IsKeptChar) == scheme + ":" + after
  {
    SchemeUrlVisible(scheme, after);
    VisibleKept(scheme + ":" + after);
  }

  lemma SchemeUrlVisible(scheme: string, after: string)
    requires IsScheme(scheme)
    requires forall k :: 0 <= k < |after| ==> after[k] > ' '
    ensures forall k :: 0 <= k < |scheme + ":" + after| ==> (scheme + ":" + after)[k] > ' '
  {
    var url := scheme + ":" + after;
    forall k | 0 <= k < |url| ensures url[k] > ' ' {
      if k < |scheme| {
        assert url[k] == scheme[k];
      } else if k > |scheme| {
        assert url[k] == after[k - |scheme| - 1];
      }
    }
  }

  lemma VisibleKept(url: string)
    requires forall k :: 0 <= k < |url| ==> url[k] > ' '
    ensures Filter(TrimLeft(url, IsControlOrSpace), IsKeptChar) == url
  {
    assert TrimLeft(url, IsControlOrSpace) == url;
  }

  lemma DropSchemeOf(scheme: string, after: string)
    requires IsScheme(scheme)
    ensures DropScheme(scheme + ":" + after) == after
  {
    var url := scheme + ":" + after;
    assert url[|scheme|] == ':';
    assert forall k :: 0 <= k < |scheme| ==> url[k] == scheme[k] && url[k] != ':';
    assert Find(url, ':') == |scheme|;
    assert url[|scheme| + 1..] == after;
  }

  lemma DropNetlocOf(host: string, rest: string)
    requires IsHost(host)
    requires rest == [] || IsNetlocEnd(rest[0])
    ensures DropNetloc("//" + host + rest) == rest
  {
    var s := "//" + host + rest;
    var tail := host + rest;
    assert s[..2] == "//" && s[2..] == tail;
    assert forall k :: 0 <= k < |host| ==> tail[k] == host[k];
    if rest != [] {
      assert tail[|host|] == rest[0];
    }
    assert FirstWhere(tail, IsNetlocEnd) == |host|;
    assert tail[|host|..] == rest;
  }

  lemma CutQueryAndFragment(path: string, rest: string)
    requires forall k :: 0 <= k < |path| ==> IsPathChar(path[k])
    requires rest == [] || rest[0] == '?' || rest[0] == '#'
    ensures Before(Before(path + rest, '#'), '?') == path
  {
    assert '#' !in path && '?' !in path;
    BeforeAfterPrefix(path, rest, '#');
    var r := Before(rest, '#');
    assert r == [] || r[0] == '?' by {
      if r != [] {
        assert rest[0] != '#';
        assert r[0] == rest[0];
      }
    }
    BeforeAfterPrefix(path, r, '?');
    assert Before(r, '?') == [];
  }

  /** Before(p + r, c) cuts inside r when p has no c. */
  lemma BeforeAfterPrefix(p: string, r: string, c: char)
    requires c !in p
    ensures Before(p + r, c) == p + Before(r, c)
  {
    var s := p + r;
    assert forall k :: 0 <= k < |p| ==> s[k] == p[k];
    assert forall k :: 0 <= k < |r| ==> s[|p| + k] == r[k];
    if c in r {
      var j := Find(r, c);
      assert s[|p| + j] == c;
      assert Find(s, c) == |p| + j;
      assert s[..|p| + j] == p + r[..j];
    } else {
      assert c !in s;
    }
  }

  /** The name of "dir/file" is "file". */
  lemma PathNameOfFile(dir: string, file: string)
    requires file != [] && file != "." && '/' !in file
    ensures PathName(dir + "/" + file) == file
  {
    var path := dir + "/" + file;
    assert path[|dir|] == '/';
    assert forall k :: |dir| < k < |path| ==> path[k] == file[k - |dir| - 1];
    assert RFind(path, '/') == |dir|;
    assert path[|dir| + 1..] == file;
  }

  /** The suffix of "stem.ext" is ".ext" when ext holds no dot. */
  lemma SuffixOfStemAndExt(stem: string, ext: string)
    requires stem != [] && ext != [] && '.' !in ext
    ensures Suffix(stem + "." + ext) == "." + ext
  {
    var name := stem + "." + ext;
    assert name[|stem|] == '.';
    assert forall k :: |stem| < k < |name| ==> name[k] == ext[k - |stem| - 1];
    assert RFind(name, '.') == |stem|;
    assert name[|stem|..] == "." + ext;
  }

  /** The download URL "scheme://host/dir/stem.ext?query" has extension ".ext":
      the extension is recovered from the URL whatever the default. */
  lemma ExtOfFileUrl(scheme: string, host: string, dir: string, stem: string, ext: string, rest: string, defaultExt: string)
    requires IsScheme(scheme)
    requires IsHost(host)
    requires forall k :: 0 <= k < |dir| ==> IsPathChar(dir[k])
    requires stem != [] && '/' !in stem && forall k :: 0 <= k < |stem| ==> IsPathChar(stem[k])
    requires ext != [] && '.' !in ext && '/' !in ext && forall k :: 0 <= k < |ext| ==> IsPathChar(ext[k])
    requires rest == [] || rest[0] == '?' || rest[0] == '#'
    requires forall k :: 0 <= k < |rest| ==> rest[k] > ' '
    ensures GetExtFromUrl(scheme + "://" + host + "/" + dir + "/" + stem + "." + ext + rest, defaultExt) == "." + ext
  {
    var file := stem + "." + ext;
    var url := scheme + "://" + host + "/" + dir + "/" + stem + "." + ext + rest;
    assert url == scheme + "://" + host + "/" + dir + "/" + file + rest;
    FileOfStemAndExt(stem, ext);
    FileNameOfUrl(scheme, host, dir, file, rest);
    SuffixOfStemAndExt(stem, ext);
    assert Suffix(PathName(UrlPath(url))) == "." + ext;
  }

  lemma FileOfStemAndExt(stem: string, ext: string)
    requires '/' !in stem && forall k :: 0 <= k < |stem| ==> IsPathChar(stem[k])
    requires '/' !in ext && forall k :: 0 <= k < |ext| ==> IsPathChar(ext[k])
    ensures '/' !in stem + "." + ext
    ensures forall k :: 0 <= k < |stem + "." + ext| ==> IsPathChar((stem + "." + ext)[k])
  {
    var file := stem + "." + ext;
    forall k | 0 <= k < |file| ensures IsPathChar(file[k]) && file[k] != '/' {
      if k < |stem| { assert file[k] == stem[k]; }
      else if k > |stem| { assert file[k] == ext[k - |stem| - 1]; }
    }
  }

  /** The name of the path of "scheme://host/dir/file?query" is "file". */
  lemma FileNameOfUrl(scheme: string, host: string, dir: string, file: string, rest: string)
    requires IsScheme(scheme)
    requires IsHost(host)
    requires forall k :: 0 <= k < |dir| ==> IsPathChar(dir[k])
    requires file != [] && file != "." && '/' !in file
    requires forall k :: 0 <= k < |file| ==> IsPathChar(file[k])
    requires rest == [] || rest[0] == '?' || rest[0] == '#'
    requires forall k :: 0 <= k < |rest| ==> rest[k] > ' '
    ensures PathName(UrlPath(scheme + "://" + host + "/" + dir + "/" + file + rest)) == file
  {
    var path := "/" + dir + "/" + file;
    forall k | 0 <= k < |path| ensures IsPathChar(path[k]) {
      if 1 <= k < 1 + |dir| {
        assert path[k] == dir[k - 1];
      } else if k >= 2 + |dir| {
        assert path[k] == file[k - 2 - |dir|];
      }
    }
    assert scheme + "://" + host + "/" + dir + "/" + file + rest == scheme + "://" + host + path + rest;
    UrlPathOfAbsoluteUrl(scheme, host, path, rest);
    assert path == ("/" + dir) + "/" + file;
    PathNameOfFile("/" + dir, file);
  }

  /** A URL whose file name has no dot gets the default extension. */
  lemma ExtOfDotlessUrl(scheme: string, host: string, dir: string, file: string, defaultExt: string)
    requires IsScheme(scheme)
    requires IsHost(host)
    requires forall k :: 0 <= k < |dir| ==> IsPathChar(dir[k])
    requires file != [] && '/' !in file && '.' !in file
    requires forall k :: 0 <= k < |file| ==> IsPathChar(file[k])
    ensures GetExtFromUrl(scheme + "://" + host + "/" + dir + "/" + file, defaultExt) == defaultExt
  {
    assert file != ".";
    assert scheme + "://" + host + "/" + dir + "/" + file == scheme + "://" + host + "/" + dir + "/" + file + [];
    FileNameOfUrl(scheme, host, dir, file, []);
    assert RFind(file, '.') == -1;
  }
}
