/**
 Choosing between bind and connect when a socket is opened (src/common/nbus/nbus.c).

 The first process to open an `ipc` URL creates the socket's file, and whoever finds the
 file connects. Opening is taken as one step here: the check and the bind are not apart.
 */
module Endpoint {
  import opened Common
  import opened Text

  const PREFIX: CString := "ipc://"

  predicate IsIpc(url: CString) {
    PREFIX <= url
  }

  /** The URL without one leading prefix. */
  function FileName(url: CString): CString {
    if IsIpc(url) then url[|PREFIX|..] else url
  }

  /** What that comes to: `ipc://` and nothing else is removed, and only once. */
  lemma StripsIpc(s: CString)
    ensures FileName("ipc://" + s) == s && IsIpc("ipc://" + s)
    ensures !("ipc://" <= s) ==> FileName(s) == s && !IsIpc(s)
  {
    assert ("ipc://" + s)[6..] == s;
  }

  /** How many characters the prefix test removes. */
  function RemoveSize(url: CString): nat {
    if SameFirst(PREFIX, url, |PREFIX|) then |PREFIX| else 0
  }

  lemma RemoveSizeIsPrefix(url: CString)
    ensures RemoveSize(url) <= |url| && url[RemoveSize(url)..] == FileName(url)
  {
    SameFirstSymmetric(PREFIX, url, |PREFIX|);
    SameFirstIsPrefix(PREFIX, url);
  }

  lemma {:induction false} SameFirstSymmetric(a: string, b: string, n: nat)
    decreases n
    ensures SameFirst(a, b, n) == SameFirst(b, a, n)
  {
    if n > 0 && a != "" && b != "" {
      SameFirstSymmetric(a[1..], b[1..], n - 1);
    }
  }

  /** The buffer has eight bytes per character, so the copy fits unless the URL is empty. */
  lemma CopyFitsExactly(url: CString)
    ensures |url| - RemoveSize(url) + 1 <= 8 * |url| <==> url != ""
  {
    RemoveSizeIsPrefix(url);
  }

  /** `memcpy` of the end of a C string from position `from`, terminator included. */
  method CopyEnd(buffer: array<char>, s: CString, from: nat)
    requires from <= |s| && |s| - from + 1 <= buffer.Length
    modifies buffer
    ensures UpToNul(buffer[..]) == s[from..]
  {
    forall i | 0 <= i < |s| - from + 1 {
      buffer[i] := CharAt(s, from + i);
    }
    assert buffer[..][..|s| - from] == s[from..];
    UpToNulAt(buffer[..], s[from..]);
  }

  /** `overran` says that the copy has left the buffer, where the modelled run ends. */
  method GetFileFromUrl(url: CString) returns (ret: Errno, fileName: array<char>, overran: bool)
    ensures fresh(fileName) && fileName.Length == 8 * |url|
    ensures overran <==> url == ""
    ensures !overran ==> ret == EOK && UpToNul(fileName[..]) == if "ipc://" <= url then url[6..] else url
  {
    ret := EOK;
    var removeSize := RemoveSize(url);
    RemoveSizeIsPrefix(url);
    CopyFitsExactly(url);
    fileName := new char[8 * |url|];
    overran := |url| - removeSize + 1 > fileName.Length;
    if !overran {
      CopyEnd(fileName, url, removeSize);
    }
  }

  // ----- opening ------------------------------------------------------------------------

  datatype Role = Bound | Connected

  /** Which call of the library fails, if one does. */
  datatype Failure = Nowhere | AtSocket | AtSubscription | AtEndpoint

  class Host {
    var files: set<string>

    constructor (files: set<string>)
      ensures this.files == files
    {
      this.files := files;
    }
  }

  function RoleFor(files: set<string>, url: CString): Role {
    if FileName(url) in files then Connected else Bound
  }

  /** The files after an open: binding an `ipc` URL creates its file. */
  function FilesAfter(files: set<string>, url: CString): set<string> {
    if RoleFor(files, url).Bound? && IsIpc(url) then files + {FileName(url)} else files
  }

  /** Only subscribers ask for a subscription, and the URL is not looked at before that. */
  method NbusInitPubsub(host: Host, url: CString, subscriber: bool, failure: Failure)
      returns (ret: Errno, role: Option<Role>, overran: bool)
    modifies host
    ensures overran <==> url == "" && !failure.AtSocket? && !(subscriber && failure.AtSubscription?)
    ensures !overran ==>
              && (ret == EOK || ret == ENOENT)
              && (ret == EOK <==> failure.Nowhere? || (failure.AtSubscription? && !subscriber))
    ensures overran || ret != EOK ==> role == None && host.files == old(host.files)
    ensures !overran && ret == EOK ==>
              var name := if "ipc://" <= url then url[6..] else url;
              && role == Some(if name in old(host.files) then Connected else Bound)
              && host.files == (if "ipc://" <= url then old(host.files) + {name} else old(host.files))
              && role.value == RoleFor(old(host.files), url) && host.files == FilesAfter(old(host.files), url)
  {
    role, overran := None, false;
    if failure.AtSocket? {
      return ENOENT, None, false;
    }
    if subscriber {
      if failure.AtSubscription? {
        return ENOENT, None, false;
      }
    }
    var fileName: array<char>;
    ret, fileName, overran := GetFileFromUrl(url);
    if overran {
      return;
    }
    var found := UpToNul(fileName[..]) in host.files;
    if failure.AtEndpoint? {
      return ENOENT, None, false;
    }
    if found {
      role := Some(Connected);
    } else {
      if IsIpc(url) {
        host.files := host.files + {FileName(url)};
      }
      role := Some(Bound);
    }
    ret := EOK;
  }

  /** The roles of successive opens, with nothing removing files in between. */
  function Roles(files: set<string>, urls: seq<CString>): (roles: seq<Role>)
    decreases |urls|
    ensures |roles| == |urls|
  {
    if urls == [] then []
    else [RoleFor(files, urls[0])] + Roles(FilesAfter(files, urls[0]), urls[1..])
  }

  /** An open binds exactly when the name is neither a file from before nor the name of an
      `ipc` URL opened earlier. */
  lemma {:induction false} BindsExactly(files: set<string>, urls: seq<CString>, i: nat)
    requires i < |urls|
    decreases i
    ensures Roles(files, urls)[i] == Bound
       <==> && FileName(urls[i]) !in files
            && forall j :: 0 <= j < i && IsIpc(urls[j]) ==> FileName(urls[j]) != FileName(urls[i])
  {
    if i > 0 {
      var rest := urls[1..];
      var files' := FilesAfter(files, urls[0]);
      BindsExactly(files', rest, i - 1);
      assert rest[i - 1] == urls[i];
      assert forall j :: 0 < j < i ==> urls[j] == rest[j - 1];
    }
  }

  lemma IpcNamesDiffer(a: CString, b: CString)
    requires IsIpc(a) && IsIpc(b) && FileName(a) == FileName(b)
    ensures a == b
  {
    assert a == PREFIX + a[|PREFIX|..] && b == PREFIX + b[|PREFIX|..];
  }

  /** The first open of an `ipc` URL binds and every later one connects, whatever other
      `ipc` URLs are opened: a URL never has two binders. */
  lemma FirstOpenBinds(files: set<string>, urls: seq<CString>, i: nat)
    requires i < |urls| && forall j :: 0 <= j < |urls| ==> IsIpc(urls[j])
    ensures Roles(files, urls)[i] == Bound <==> FileName(urls[i]) !in files && urls[i] !in urls[..i]
  {
    BindsExactly(files, urls, i);
    forall j | 0 <= j < i && FileName(urls[j]) == FileName(urls[i])
      ensures urls[j] == urls[i]
    {
      IpcNamesDiffer(urls[j], urls[i]);
    }
    assert urls[i] in urls[..i] <==> exists j :: 0 <= j < i && urls[j] == urls[i];
  }

  /** Opening one URL twice gives two binders exactly when the URL is not an `ipc` one and no
      file has its name. */
  lemma TwoBindersExactly(files: set<string>, url: CString)
    ensures Roles(files, [url, url]) == [Bound, Bound] <==> !IsIpc(url) && url !in files
  {
    BindsExactly(files, [url, url], 0);
    BindsExactly(files, [url, url], 1);
  }
}
