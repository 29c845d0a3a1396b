/** The output file name of the WRITE command (`proc_write`,
    eval.cpp:1198-1219): the input name with its `.edf` extension replaced
    by `-<tag>.edf`, optionally moved into another folder. The folder
    delimiter (`globals::folder_delimiter`) is a parameter; creating the
    folder is not part of this model. */
module OutputName {
  import opened Wrappers
  import opened ParamStore

  datatype WriteHalt =
    | NoTag                    // `edf-tag` not given
    | NotAFolder(dir: string)  // `edf-dir` does not end in the delimiter

  /** The name without a trailing `.edf` or `.EDF`. */
  function Stem(name: string): (r: string)
    ensures r <= name
    ensures |name| >= 4 && name[|name| - 4..] in {".edf", ".EDF"} ==> |r| == |name| - 4
    ensures !(|name| >= 4 && name[|name| - 4..] in {".edf", ".EDF"}) ==> r == name
  {
    if |name| >= 4 && name[|name| - 4..] in {".edf", ".EDF"} then name[..|name| - 4] else name
  }

  /** The tagged name in the input's own folder. */
  function Tagged(name: string, tag: string): string {
    Stem(name) + "-" + tag + ".edf"
  }

  /** The start of the last path component: one past the last delimiter,
      or 0 when there is none (the backward scan of `proc_write`). */
  function BaseStart(f: string, delim: char): (v: nat)
    ensures v <= |f|
    ensures v > 0 ==> f[v - 1] == delim
    ensures forall j :: v <= j < |f| ==> f[j] != delim
  {
    if |f| == 0 then 0
    else if f[|f| - 1] == delim then |f|
    else BaseStart(f[..|f| - 1], delim)
  }

  /** The last path component. */
  function BaseName(f: string, delim: char): string {
    f[BaseStart(f, delim)..]
  }

  /** The file name `proc_write` writes to. An empty `edf-dir` value is
      refused like one that does not end in the delimiter. */
  function WriteName(name: string, p: Params, delim: char): (r: Result<string, WriteHalt>)
    ensures r == Failure(NoTag) <==> !Has(p, "edf-tag")
    ensures r.Failure? && r.error.NotAFolder? <==>
              && Has(p, "edf-tag") && Has(p, "edf-dir")
              && (Value(p, "edf-dir") == [] || Value(p, "edf-dir")[|Value(p, "edf-dir")| - 1] != delim)
    ensures r.Success? && !Has(p, "edf-dir") ==> r.value == Tagged(name, Value(p, "edf-tag"))
    ensures r.Success? && Has(p, "edf-dir") ==>
              r.value == Value(p, "edf-dir") + BaseName(Tagged(name, Value(p, "edf-tag")), delim)
  {
    match Requires(p, "edf-tag")
    case Failure(_) => Failure(NoTag)
    case Success(tag) =>
      var filename := Tagged(name, tag);
      if !Has(p, "edf-dir") then Success(filename)
      else
        var outdir := Value(p, "edf-dir");
        if |outdir| == 0 || outdir[|outdir| - 1] != delim then Failure(NotAFolder(outdir))
        else Success(outdir + filename[BaseStart(filename, delim)..])
  }

  /** Replacing the extension is undone by removing the tag: the stem of a
      tagged name is the input's stem followed by `-<tag>`. */
  lemma TaggedStem(name: string, tag: string)
    ensures Stem(Tagged(name, tag)) == Stem(name) + "-" + tag
  {
    var t := Tagged(name, tag);
    assert t[|t| - 4..] == ".edf";
  }

  /** A name's last component is unaffected by what precedes its last
      delimiter. */
  lemma {:induction false} BaseNameOfPrefixed(dir: string, f: string, delim: char)
    requires |dir| > 0 && dir[|dir| - 1] == delim
    ensures BaseStart(dir + f, delim) == |dir| + BaseStart(f, delim)
    decreases |f|
  {
    var g := dir + f;
    if |f| == 0 {
      assert g == dir;
    } else {
      assert g[..|g| - 1] == dir + f[..|f| - 1];
      BaseNameOfPrefixed(dir, f[..|f| - 1], delim);
    }
  }

  /** With `edf-dir`, the name lands in that folder and keeps the tagged
      file's own last component: only the folder changes. */
  lemma MovedKeepsBaseName(name: string, p: Params, delim: char)
    requires WriteName(name, p, delim).Success? && Has(p, "edf-dir")
    ensures var r := WriteName(name, p, delim).value;
            var dir := Value(p, "edf-dir");
            && dir <= r
            && BaseName(r, delim) == BaseName(Tagged(name, Value(p, "edf-tag")), delim)
  {
    var dir := Value(p, "edf-dir");
    var t := Tagged(name, Value(p, "edf-tag"));
    var b := BaseName(t, delim);
    BaseNameOfPrefixed(dir, b, delim);
    BaseOfBase(t, delim);
    assert (dir + b)[|dir| + BaseStart(b, delim)..] == b[BaseStart(b, delim)..];
  }

  /** A last component has no delimiter left in it. */
  lemma {:induction false} BaseOfBase(f: string, delim: char)
    ensures BaseStart(BaseName(f, delim), delim) == 0
  {
    NoDelimBase(BaseName(f, delim), delim);
  }

  lemma {:induction false} NoDelimBase(g: string, delim: char)
    requires forall j :: 0 <= j < |g| ==> g[j] != delim
    ensures BaseStart(g, delim) == 0
    decreases |g|
  {
    if |g| > 0 {
      NoDelimBase(g[..|g| - 1], delim);
    }
  }
}
