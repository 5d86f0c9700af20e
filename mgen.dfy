/**
 * The per-field helpers of the mgen-to-D3JS converter: deriving the output name, checking that a
 * RECV line carries `src>` and `dst>` where expected, checking an address, and turning an address
 * `a.b.c.d[/port]` into the node name `mgen.a-b-c-d`.
 */
module Mgen {
  import opened Wrappers
  import opened Text
  import IPv4

  // ---------------------------------------------------------------------------------------------
  // Output-name derivation

  /** `s.rsplit(c, 1)[0]`: the text before the last `c`, or all of `s` when there is none. */
  function BeforeLast(s: string, c: char): (r: string)
    ensures c !in s ==> r == s
    ensures c in s ==> |r| < |s| && r == s[..|r|] && s[|r|] == c && c !in s[|r| + 1..]
  {
    if c !in s then s
    else if s[|s| - 1] == c then s[..|s| - 1]
    else
      var t := s[..|s| - 1];
      assert c in t by {
        var i :| 0 <= i < |s| && s[i] == c;
        assert t[i] == c;
      }
      var r := BeforeLast(t, c);
      assert s[|r| + 1..] == t[|r| + 1..] + [s[|s| - 1]];
      r
  }

  /** The default output file: the input name with its last `.`-suffix replaced by `.json`. */
  function RenameFile(path: string): (r: string)
    ensures |r| >= 5 && r[|r| - 5..] == ".json"
    ensures '.' !in path ==> r == path + ".json"
    ensures '.' in path ==> var stem := r[..|r| - 5];
      |stem| < |path| && stem == path[..|stem|] && path[|stem|] == '.' && '.' !in path[|stem| + 1..]
  {
    BeforeLast(path, '.') + ".json"
  }

  /** The directory part of a path: everything up to and including its last `/`. */
  function DirPart(path: string): (r: string)
    ensures |r| <= |path| && r == path[..|r|]
    ensures '/' !in path[|r|..]
  {
    if '/' !in path then [] else BeforeLast(path, '/') + "/"
  }

  /** The output name the documentation describes: only the file's own name loses its extension. */
  function RenameFileInPlace(path: string): (r: string)
    ensures |r| >= 5 && r[|r| - 5..] == ".json"
  {
    var dir := DirPart(path);
    dir + BeforeLast(path[|dir|..], '.') + ".json"
  }

  lemma {:induction false} BeforeLastAppend(x: string, y: string, c: char)
    requires c in x && c !in y
    ensures BeforeLast(x + y, c) == BeforeLast(x, c)
  {
    if y != [] {
      var y' := y[..|y| - 1];
      var z := x + y';
      assert y == y' + [y[|y| - 1]];
      assert x + y == z + [y[|y| - 1]];
      assert (x + y)[..|x + y| - 1] == z;
      assert y[|y| - 1] in y;
      assert c in x + y && c in z;
      assert (x + y)[|x + y| - 1] != c;
      assert BeforeLast(x + y, c) == BeforeLast(z, c);
      BeforeLastAppend(x, y', c);
    } else {
      assert x + y == x;
    }
  }

  /** The corrected name keeps the input's directory: the JSON lands next to its log. */
  lemma RenameFileInPlaceKeepsDir(path: string)
    ensures DirPart(RenameFileInPlace(path)) == DirPart(path)
  {
    var dir := DirPart(path);
    var base := path[|dir|..];
    var stem := BeforeLast(base, '.');
    var tail := stem + ".json";
    var r := RenameFileInPlace(path);
    assert r == dir + tail;
    assert '/' !in stem by {
      if '.' in base {
        forall i | 0 <= i < |stem| ensures stem[i] != '/' { assert stem[i] == base[i]; assert base[i] in base; }
      }
    }
    assert '/' !in tail by {
      forall i | 0 <= i < |tail| ensures tail[i] != '/' {
        if i < |stem| { assert tail[i] == stem[i]; assert stem[i] in stem; }
      }
    }
    if '/' in path {
      var b := BeforeLast(path, '/');
      assert dir == b + "/";
      assert '/' in dir by { assert dir[|b|] == '/'; }
      BeforeLastAppend(dir, tail, '/');
      assert r[..|dir|] == dir;
      assert '/' in r by { assert r[|b|] == '/'; }
      assert BeforeLast(dir, '/') == b by {
        assert dir[..|dir| - 1] == b;
      }
    } else {
      assert '/' !in r by {
        forall i | 0 <= i < |r| ensures r[i] != '/' { assert r[i] == tail[i]; assert tail[i] in tail; }
      }
    }
  }

  /**
   * As written, a relative path `./dir/name` without an extension keeps only the dot of `./`:
   * the output name is `.json`, in the working directory.
   */
  lemma RenameFileDropsDirectory(dir: string, name: string)
    requires '.' !in dir && '.' !in name
    ensures RenameFile("./" + dir + "/" + name) == ".json"
    ensures DirPart(RenameFile("./" + dir + "/" + name)) != DirPart("./" + dir + "/" + name)
  {
    var p := "./" + dir + "/" + name;
    forall k | 1 <= k < |p| ensures p[k] != '.' {
      if 2 <= k < 2 + |dir| {
        assert p[k] == dir[k - 2];
      } else if k > 2 + |dir| {
        assert p[k] == name[k - 3 - |dir|];
      }
    }
    var stem := BeforeLast(p, '.');
    assert p[0] == '.';
    assert |stem| == 0;
    assert RenameFile(p) == ".json";
    assert '/' in p by { assert p[1] == '/'; }
    assert '/' !in ".json";
  }

  /** The corrected name of such a path stays in its directory and keeps the file's name. */
  lemma RenameFileInPlaceKeepsName(dir: string, name: string)
    requires '.' !in name && '/' !in name
    ensures RenameFileInPlace("./" + dir + "/" + name) == "./" + dir + "/" + name + ".json"
  {
    var x := "./" + dir + "/";
    var p := x + name;
    assert p == "./" + dir + "/" + name;
    assert '/' in x by { assert x[|x| - 1] == '/'; }
    BeforeLastAppend(x, name, '/');
    assert BeforeLast(x, '/') == "./" + dir by { assert x[..|x| - 1] == "./" + dir; }
    assert DirPart(p) == x;
    assert p[|x|..] == name;
  }

  // ---------------------------------------------------------------------------------------------
  // RECV line validation

  /** Why a RECV line is skipped; each corresponds to one diagnostic of the converter. */
  datatype Rejection = SrcOutOfPlace | DstOutOfPlace | BadSrcAddress | BadDstAddress

  datatype Check = Pass | Fail(why: Rejection)

  /** Token positions of the source and destination fields in a RECV line. */
  const SrcField := 5
  const DstField := 6

  predicate HasTag(token: string, tag: string)
  {
    |tag| <= |token| && token[..|tag|] == tag
  }

  /** `validate_recv_mgen_line`: `Pass` stands for the Python `None`, `Fail` for the `False` return. */
  function ValidateRecvLine(tokens: seq<string>): (r: Check)
    ensures r == Pass <==> |tokens| > DstField && HasTag(tokens[SrcField], "src>") && HasTag(tokens[DstField], "dst>")
    ensures r == Fail(SrcOutOfPlace) <==> !(|tokens| > SrcField && HasTag(tokens[SrcField], "src>"))
    ensures r.Fail? ==> r.why in {SrcOutOfPlace, DstOutOfPlace}
  {
    if |tokens| <= SrcField || Prefix(tokens[SrcField], 4) != "src>" then Fail(SrcOutOfPlace)
    else if |tokens| <= DstField || Prefix(tokens[DstField], 4) != "dst>" then Fail(DstOutOfPlace)
    else Pass
  }

  // ---------------------------------------------------------------------------------------------
  // Addresses

  /** `address.split("/")[0]`: the address without its port suffix. */
  function StripPort(address: string): (r: string)
    ensures '/' !in r && |r| <= |address| && r == address[..|r|]
    ensures r == address <==> '/' !in address
    ensures r != address ==> address[|r|] == '/'
  {
    FirstPiece(address, '/');
    Split(address, '/')[0]
  }

  /** `validate_node_address`: true for the Python `None` (accepted), false for `False`. */
  function ValidateNodeAddress(address: string): (ok: bool)
    ensures ok ==> |Split(StripPort(address), '.')| == 4
  {
    IPv4.IsAddress(StripPort(address))
  }

  /** `convert_node_address`; None stands for the IndexError raised when fewer than four `.`-parts exist. */
  function ConvertNodeAddress(address: string): (r: Option<string>)
    ensures r.Some? <==> |Split(StripPort(address), '.')| >= 4
    ensures r.Some? ==> |r.value| >= 5 && r.value[..5] == "mgen."
  {
    var parts := Split(StripPort(address), '.');
    if |parts| < 4 then None
    else Some("mgen." + parts[0] + "-" + parts[1] + "-" + parts[2] + "-" + parts[3])
  }

  /** The address a node name was made from: drop `mgen.` and turn `-` back into `.`. */
  function AddressOfName(name: string): string
  {
    Replace(Drop(name, 5), '-', '.')
  }

  /** Stripping the port is idempotent, and whatever follows the first `/` is ignored. */
  lemma StripPortLaws(address: string, port: string)
    ensures StripPort(StripPort(address)) == StripPort(address)
    ensures '/' !in address ==> StripPort(address + "/" + port) == address
  {
    if '/' !in address {
      SplitAtFirst(address, '/', port);
    }
  }

  /** Both checks and the name depend only on the text before the first `/`. */
  lemma PortIsIgnored(address: string, port: string)
    requires '/' !in address
    ensures ValidateNodeAddress(address + "/" + port) == ValidateNodeAddress(address)
    ensures ConvertNodeAddress(address + "/" + port) == ConvertNodeAddress(address)
  {
    StripPortLaws(address, port);
  }

  /** A validated address always converts, to `mgen.` followed by the address with `.` replaced by `-`. */
  lemma ConvertValid(address: string)
    requires ValidateNodeAddress(address)
    ensures ConvertNodeAddress(address) == Some("mgen." + Replace(StripPort(address), '.', '-'))
  {
    var a := StripPort(address);
    var parts := Split(a, '.');
    assert parts == [parts[0], parts[1], parts[2], parts[3]];
    JoinSplitIsReplace(a, '.', '-');
    NamePrefixJoin(parts[0], parts[1], parts[2], parts[3]);
  }

  lemma NamePrefixJoin(p0: string, p1: string, p2: string, p3: string)
    ensures "mgen." + Join([p0, p1, p2, p3], '-') == "mgen." + p0 + "-" + p1 + "-" + p2 + "-" + p3
  {
    JoinFour(p0, p1, p2, p3, '-');
  }

  /** The node name of a valid address gives the address back, so names identify addresses. */
  lemma NameRoundTrip(address: string)
    requires ValidateNodeAddress(address)
    ensures AddressOfName(ConvertNodeAddress(address).value) == StripPort(address)
  {
    ConvertValid(address);
    var a := StripPort(address);
    IPv4.AddressAlphabet(a);
    var name := ConvertNodeAddress(address).value;
    assert Drop(name, 5) == Replace(a, '.', '-');
  }

  /** Two valid addresses get the same node name exactly when they agree before the first `/`. */
  lemma SameNameIffSameAddress(a: string, b: string)
    requires ValidateNodeAddress(a) && ValidateNodeAddress(b)
    ensures ConvertNodeAddress(a) == ConvertNodeAddress(b) <==> StripPort(a) == StripPort(b)
  {
    NameRoundTrip(a);
    NameRoundTrip(b);
    if StripPort(a) == StripPort(b) {
      ConvertValid(a);
      ConvertValid(b);
    }
  }
}
