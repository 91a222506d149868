/** The markdown language tag derived from a file's extension: the last
    extension of the path, lower-cased, looked up in a fixed table. */
module Language {
  import opened ByteText

  /** `filepath.Ext` with `/` as the only separator: the suffix of the last
      path element that starts at its last '.', or empty when that element
      has no '.'. */
  function Ext(path: Bytes): (e: Bytes)
    ensures e == [] || (e[0] == '.' && IsSuffix(e, path))
    ensures forall i :: 0 <= i < |e| ==> e[i] != '/'
    ensures forall i :: 0 < i < |e| ==> e[i] != '.'
    decreases |path|
  {
    if |path| == 0 || path[|path| - 1] == '/' then []
    else if path[|path| - 1] == '.' then "."
    else
      var e := Ext(path[..|path| - 1]);
      if e == [] then [] else e + [path[|path| - 1]]
  }

  /** ASCII lower-casing of one byte. */
  function LowerByte(c: Byte): (d: Byte)
    ensures 'A' <= c <= 'Z' ==> d as int == c as int + 32
    ensures !('A' <= c <= 'Z') ==> d == c
  {
    if 'A' <= c <= 'Z' then (c as int + 32) as char else c
  }

  /** `strings.ToLower` on ASCII text. */
  function ToLower(s: Bytes): Bytes
  {
    seq(|s|, i requires 0 <= i < |s| => LowerByte(s[i]))
  }

  /** The switch of `languageFromPath`: lower-case extension to tag, "" for
      anything not listed. */
  function LanguageOf(ext: Bytes): (tag: Bytes)
    ensures tag in Tags
    ensures tag == "" <==> ext !in KnownExtensions
    ensures forall i :: 0 <= i < |tag| ==> 'a' <= tag[i] <= 'z'
  {
    if ext == ".go" then "go"
    else if ext == ".py" then "python"
    else if ext == ".js" then "javascript"
    else if ext == ".jsx" then "jsx"
    else if ext == ".ts" then "typescript"
    else if ext == ".tsx" then "tsx"
    else if ext == ".rs" then "rust"
    else if ext == ".java" then "java"
    else if ext == ".c" || ext == ".h" then "c"
    else if ext == ".cc" || ext == ".cpp" || ext == ".cxx" || ext == ".hpp" || ext == ".hh" || ext == ".hxx" then "cpp"
    else if ext == ".sh" || ext == ".bash" then "bash"
    else if ext == ".zsh" then "zsh"
    else if ext == ".rb" then "ruby"
    else if ext == ".php" then "php"
    else if ext == ".html" || ext == ".htm" then "html"
    else if ext == ".css" then "css"
    else if ext == ".json" then "json"
    else if ext == ".yml" || ext == ".yaml" then "yaml"
    else if ext == ".toml" then "toml"
    else if ext == ".md" || ext == ".markdown" then "markdown"
    else if ext == ".txt" then "text"
    else ""
  }

  /** `languageFromPath`. */
  function LanguageFromPath(path: Bytes): Bytes
  {
    LanguageOf(ToLower(Ext(path)))
  }

  /** The extensions the switch lists, each with a tag of its own. */
  const KnownExtensions: set<Bytes> := {
    ".go", ".py", ".js", ".jsx", ".ts", ".tsx", ".rs", ".java", ".c", ".h",
    ".cc", ".cpp", ".cxx", ".hpp", ".hh", ".hxx", ".sh", ".bash", ".zsh", ".rb",
    ".php", ".html", ".htm", ".css", ".json", ".yml", ".yaml", ".toml", ".md",
    ".markdown", ".txt"
  }

  /** Every tag the switch can return, and "" for no tag. */
  const Tags: set<Bytes> := {
    "", "go", "python", "javascript", "jsx", "typescript", "tsx", "rust", "java",
    "c", "cpp", "bash", "zsh", "ruby", "php", "html", "css", "json", "yaml",
    "toml", "markdown", "text"
  }

  /** No tag contains the placeholder opener '{' (it sorts just after 'z'),
      so a tag substituted into a template cannot form a later placeholder. */
  lemma TagsHaveNoBrace(ext: Bytes)
    ensures '{' !in LanguageOf(ext)
  {
    var tag := LanguageOf(ext);
    forall i | 0 <= i < |tag|
      ensures tag[i] != '{'
    {
      assert 'a' <= tag[i] <= 'z';
    }
  }

  // The alias groups: each tag shared by several extensions is returned for
  // exactly those extensions.

  lemma GroupC(ext: Bytes)
    ensures LanguageOf(ext) == "c" <==> ext in {".c", ".h"}
  {
  }

  lemma GroupCpp(ext: Bytes)
    ensures LanguageOf(ext) == "cpp" <==> ext in {".cc", ".cpp", ".cxx", ".hpp", ".hh", ".hxx"}
  {
  }

  lemma GroupBash(ext: Bytes)
    ensures LanguageOf(ext) == "bash" <==> ext in {".sh", ".bash"}
  {
  }

  lemma GroupHtml(ext: Bytes)
    ensures LanguageOf(ext) == "html" <==> ext in {".html", ".htm"}
  {
  }

  lemma GroupYaml(ext: Bytes)
    ensures LanguageOf(ext) == "yaml" <==> ext in {".yml", ".yaml"}
  {
  }

  lemma GroupMarkdown(ext: Bytes)
    ensures LanguageOf(ext) == "markdown" <==> ext in {".md", ".markdown"}
  {
  }

  /** Lower-casing leaves '.' and '/' in place, so it commutes with Ext. */
  lemma {:induction false} ExtOfLower(path: Bytes)
    ensures Ext(ToLower(path)) == ToLower(Ext(path))
    decreases |path|
  {
    var l := ToLower(path);
    if |path| > 0 {
      var c := path[|path| - 1];
      assert l[|l| - 1] == LowerByte(c);
      if c != '/' && c != '.' {
        var init := path[..|path| - 1];
        assert l[..|l| - 1] == ToLower(init);
        ExtOfLower(init);
        var e := Ext(init);
        if e != [] {
          assert ToLower(e + [c]) == ToLower(e) + [LowerByte(c)];
        }
      }
    }
  }

  lemma LowerIdempotent(s: Bytes)
    ensures ToLower(ToLower(s)) == ToLower(s)
  {
  }

  /** Lookup ignores ASCII case: two paths equal up to case get the same tag. */
  lemma CaseInsensitive(p: Bytes, q: Bytes)
    requires ToLower(p) == ToLower(q)
    ensures LanguageFromPath(p) == LanguageFromPath(q)
  {
    ExtOfLower(p);
    ExtOfLower(q);
    LowerIdempotent(Ext(p));
    LowerIdempotent(Ext(q));
  }

  /** A last extension `x` (no '.' or '/' in it) is all that counts, whatever
      the path before it. */
  lemma {:induction false} ExtOfLastDot(p: Bytes, x: Bytes)
    requires '.' !in x && '/' !in x
    ensures Ext(p + "." + x) == "." + x
    decreases |x|
  {
    if |x| == 0 {
      assert (p + "." + x)[|p|] == '.';
    } else {
      var s := p + "." + x;
      assert s[..|s| - 1] == p + "." + x[..|x| - 1];
      ExtOfLastDot(p, x[..|x| - 1]);
      assert "." + x[..|x| - 1] + [x[|x| - 1]] == "." + x;
    }
  }

  lemma LastExtensionOnly(p: Bytes, x: Bytes)
    requires '.' !in x && '/' !in x
    ensures LanguageFromPath(p + "." + x) == LanguageOf(ToLower("." + x))
  {
    ExtOfLastDot(p, x);
  }

  /** A last path element without a '.' has no extension. */
  lemma {:induction false} NoDotNoExt(p: Bytes, x: Bytes)
    requires '.' !in x
    requires |p| == 0 || p[|p| - 1] == '/'
    ensures Ext(p + x) == []
    decreases |x|
  {
    if |x| > 0 {
      var s := p + x;
      assert s[..|s| - 1] == p + x[..|x| - 1];
      NoDotNoExt(p, x[..|x| - 1]);
    } else {
      assert p + x == p;
    }
  }

  lemma NoExtensionNoTag(p: Bytes, x: Bytes)
    requires '.' !in x
    requires |p| == 0 || p[|p| - 1] == '/'
    ensures LanguageFromPath(p + x) == ""
  {
    NoDotNoExt(p, x);
  }

  /** A last extension outside the table gives no tag, whatever precedes it. */
  lemma UnlistedNoTag(name: Bytes, x: Bytes)
    requires '.' !in x && '/' !in x
    requires ToLower("." + x) !in KnownExtensions
    ensures LanguageFromPath(name + "." + x) == ""
  {
    ExtOfLastDot(name, x);
  }

  /** Any file name ending in ".TSX" is tagged "tsx", as "COMPONENT.TSX" is. */
  lemma ExampleUpperCase(name: Bytes)
    ensures LanguageFromPath(name + ".TSX") == "tsx"
  {
    assert Ext(name + ".TSX") == ".TSX" by {
      ExtOfLastDot(name, "TSX");
      assert name + "." + "TSX" == name + ".TSX";
    }
    assert ToLower(".TSX") == ".tsx";
  }

  /** Any file name ending in ".JsX" is tagged "jsx", as "Component.JsX" is. */
  lemma ExampleMixedCase(name: Bytes)
    ensures LanguageFromPath(name + ".JsX") == "jsx"
  {
    assert Ext(name + ".JsX") == ".JsX" by {
      ExtOfLastDot(name, "JsX");
      assert name + "." + "JsX" == name + ".JsX";
    }
    assert ToLower(".JsX") == ".jsx";
  }

  /** Only the last extension counts: "archive.tar.gz" has no tag. */
  lemma ExampleLastExtension(name: Bytes)
    ensures LanguageFromPath(name + ".tar.gz") == ""
  {
    assert "." + "gz" == ".gz" && ToLower(".gz") == ".gz";
    UnlistedNoTag(name + ".tar", "gz");
    assert name + ".tar" + "." + "gz" == name + ".tar.gz";
  }

  lemma ExampleNoExtension()
    ensures LanguageFromPath("LICENSE") == ""
  {
    NoExtensionNoTag([], "LICENSE");
    assert [] + "LICENSE" == "LICENSE";
  }

  /** A hidden file's whole name is its extension, so ".gitignore" is looked
      up as an extension and, not being listed, gets no tag. */
  lemma ExampleHiddenFile(name: Bytes)
    ensures LanguageFromPath(name + ".gitignore") == ""
  {
    assert ToLower(".gitignore") == ".gitignore";
    UnlistedNoTag(name, "gitignore");
    assert name + "." + "gitignore" == name + ".gitignore";
  }

  /** An extension outside the table, such as ".unknown", gets no tag. */
  lemma ExampleUnknown(name: Bytes)
    ensures LanguageFromPath(name + ".unknown") == ""
  {
    assert ToLower(".unknown") == ".unknown";
    UnlistedNoTag(name, "unknown");
    assert name + "." + "unknown" == name + ".unknown";
  }
}
