/**
 Absolute path strings and the component lists they stand for (os/src/utils/path.rs).
 */
module Paths {

  /** A component: not empty, and without a slash. */
  ghost predicate IsName(s: string) {
    s != "" && '/' !in s
  }

  ghost predicate AreNames(ns: seq<string>) {
    forall i :: 0 <= i < |ns| ==> IsName(ns[i])
  }

  /** The fields between slashes, empty ones included; `cur` is the field read so far. */
  function Fields(p: string, cur: string): seq<string> {
    if p == "" then [cur]
    else if p[0] == '/' then [cur] + Fields(p[1..], "")
    else Fields(p[1..], cur + [p[0]])
  }

  function NonEmpty(fs: seq<string>): seq<string> {
    if fs == [] then []
    else (if fs[0] == "" then [] else [fs[0]]) + NonEmpty(fs[1..])
  }

  /** The components of a path. */
  function Names(p: string): seq<string> {
    NonEmpty(Fields(p, ""))
  }

  function JoinSlash(fs: seq<string>): string {
    if fs == [] then ""
    else if |fs| == 1 then fs[0]
    else fs[0] + "/" + JoinSlash(fs[1..])
  }

  function LastNonEmpty(fs: seq<string>): string {
    if fs == [] then ""
    else if fs[|fs| - 1] != "" then fs[|fs| - 1]
    else LastNonEmpty(fs[..|fs| - 1])
  }

  function DentryName(p: string): string {
    LastNonEmpty(Fields(p, ""))
  }

  function ParentPath(p: string): string {
    if p == "/" then "/"
    else
      var names := Names(p);
      if |names| == 1 then "/"
      else
        var all := [""] + names;
        JoinSlash(all[..|all| - 1])
  }

  /** A slash in `name` is the panic of the original. */
  function CwdAndName(name: string, cwd: string): string
    requires '/' !in name
  {
    (if cwd != "" && cwd[|cwd| - 1] == '/' then cwd else cwd + "/") + name
  }

  /** Without slashes, tabs and newlines at the end. */
  function FormatPath(p: string): string {
    if p != "" && p[|p| - 1] in {'/', '\t', '\n'} then FormatPath(p[..|p| - 1]) else p
  }

  function Slashed(ns: seq<string>): string {
    if ns == [] then "" else "/" + ns[0] + Slashed(ns[1..])
  }

  /** The canonical path of a component list. */
  function Path(ns: seq<string>): string {
    if ns == [] then "/" else Slashed(ns)
  }

  lemma {:induction false} FieldsOfName(name: string, rest: string, cur: string)
    requires '/' !in name
    ensures Fields(name + rest, cur) == Fields(rest, cur + name)
  {
    if name == "" {
      assert name + rest == rest && cur + name == cur;
    } else {
      assert (name + rest)[1..] == name[1..] + rest;
      FieldsOfName(name[1..], rest, cur + [name[0]]);
      assert cur + [name[0]] + name[1..] == cur + name;
    }
  }

  lemma {:induction false} FieldsOfSlashed(ns: seq<string>, cur: string)
    requires AreNames(ns)
    ensures Fields(Slashed(ns), cur) == [cur] + ns
  {
    if ns != [] {
      var rest := Slashed(ns[1..]);
      assert IsName(ns[0]);
      assert Slashed(ns)[1..] == ns[0] + rest;
      FieldsOfName(ns[0], rest, "");
      assert "" + ns[0] == ns[0];
      FieldsOfSlashed(ns[1..], ns[0]);
      assert ns == [ns[0]] + ns[1..];
    }
  }

  lemma {:induction false} NamesAllKept(ns: seq<string>)
    requires AreNames(ns)
    ensures NonEmpty(ns) == ns
  {
    if ns != [] {
      assert IsName(ns[0]);
      NamesAllKept(ns[1..]);
    }
  }

  lemma {:induction false} NoSlash(p: string, cur: string)
    requires '/' !in cur
    ensures forall i :: 0 <= i < |Fields(p, cur)| ==> '/' !in Fields(p, cur)[i]
  {
    if p != "" {
      if p[0] == '/' {
        NoSlash(p[1..], "");
      } else {
        NoSlash(p[1..], cur + [p[0]]);
      }
    }
  }

  lemma {:induction false} NonEmptyNames(fs: seq<string>)
    requires forall i :: 0 <= i < |fs| ==> '/' !in fs[i]
    ensures AreNames(NonEmpty(fs))
  {
    if fs != [] {
      NonEmptyNames(fs[1..]);
    }
  }

  /** Whatever the string, its components are names. */
  lemma NamesAreNames(p: string)
    ensures AreNames(Names(p))
  {
    NoSlash(p, "");
    NonEmptyNames(Fields(p, ""));
  }

  /** Splitting undoes joining. */
  lemma NamesOfPath(ns: seq<string>)
    requires AreNames(ns)
    ensures Names(Path(ns)) == ns
  {
    if ns == [] {
      assert Fields("/", "") == [""] + Fields("", "");
      assert NonEmpty(["", ""]) == NonEmpty([""]);
    } else {
      FieldsOfSlashed(ns, "");
      assert ([""] + ns)[1..] == ns;
      NamesAllKept(ns);
    }
  }

  lemma {:induction false} SlashedSnoc(ns: seq<string>, name: string)
    ensures Slashed(ns + [name]) == Slashed(ns) + "/" + name
  {
    if ns == [] {
      assert [name][1..] == [];
    } else {
      assert (ns + [name])[1..] == ns[1..] + [name];
      SlashedSnoc(ns[1..], name);
    }
  }

  lemma {:induction false} EndsInName(ns: seq<string>)
    requires AreNames(ns) && ns != []
    ensures Slashed(ns) != "" && Slashed(ns)[|Slashed(ns)| - 1] != '/'
  {
    var init, last := ns[..|ns| - 1], ns[|ns| - 1];
    assert IsName(last) && ns == init + [last];
    SlashedSnoc(init, last);
    var s := Slashed(ns);
    assert s[|s| - 1] == last[|last| - 1];
  }

  /** Adding a name to a canonical path. */
  lemma CwdAndNamePath(ns: seq<string>, name: string)
    requires AreNames(ns) && IsName(name)
    ensures CwdAndName(name, Path(ns)) == Path(ns + [name])
  {
    SlashedSnoc(ns, name);
    if ns != [] {
      EndsInName(ns);
    }
  }

  lemma {:induction false} JoinIsSlashed(ns: seq<string>)
    ensures JoinSlash([""] + ns) == Slashed(ns)
  {
    if ns != [] {
      assert ([""] + ns)[1..] == ns;
      JoinIsSlashed(ns[1..]);
      assert ([""] + ns[1..])[1..] == ns[1..];
    }
  }

  lemma {:induction false} LastOfNames(fs: seq<string>, last: string)
    requires last != ""
    ensures LastNonEmpty(fs + [last]) == last
  {
    var all := fs + [last];
    assert all[|all| - 1] == last;
  }

  /** `parent_path` and `dentry_name` take back apart what `cwd_and_name` put together. */
  lemma ParentAndName(ns: seq<string>, name: string)
    requires AreNames(ns) && IsName(name)
    ensures ParentPath(CwdAndName(name, Path(ns))) == Path(ns)
    ensures DentryName(CwdAndName(name, Path(ns))) == name
  {
    var all := ns + [name];
    CwdAndNamePath(ns, name);
    NamesOfPath(all);
    FieldsOfSlashed(all, "");
    assert [""] + all == [""] + ns + [name];
    LastOfNames([""] + ns, name);
    if ns != [] {
      assert Path(all) != "/" by {
        NamesOfPath([]);
      }
      JoinIsSlashed(ns);
      assert ([""] + all)[..|all|] == [""] + ns;
    }
  }
}
