/** Where `save_image_from_base64` writes: the POSIX `os.path` functions it uses and the two
    file-name schemes, `outputs/<stem>/<stem>_<timestamp>.png` for editing runs and
    `outputs/new_generation/generate_<timestamp>.png` for generation runs. */
module Paths {
  import opened Text
  import opened Timestamp

  /** `os.path.basename(p)`: the text after the last `/`. */
  function Basename(p: string): string
  {
    AfterLast(p, '/')
  }

  /** `os.path.basename(p).split('.')[0]`: the base name cut at its first `.`. */
  function Stem(p: string): (r: string)
    ensures '/' !in r && '.' !in r
    ensures |r| <= |Basename(p)| && r == Basename(p)[..|r|]
    ensures '.' in Basename(p) ==> |r| < |Basename(p)| && Basename(p)[|r|] == '.'
    ensures '.' !in Basename(p) ==> r == Basename(p)
  {
    BeforeFirst(Basename(p), '.')
  }

  /** `os.path.dirname(p)` as `posixpath` computes it: everything up to and including the last `/`,
      then the trailing `/`s removed unless nothing but `/`s is left. */
  function Dirname(p: string): string
  {
    var head := p[..|p| - |Basename(p)|];
    if head != [] && exists i :: 0 <= i < |head| && head[i] != '/' then StripTrailing(head, '/') else head
  }

  /** The file an editing script saves for input `filePath` at time `t`. */
  function EditPath(filePath: string, t: DateTime): string
  {
    "outputs/" + Stem(filePath) + "/" + Stem(filePath) + "_" + Format(t) + ".png"
  }

  /** The file a generation script saves at time `t`; there is no input file. */
  function GenerationPath(t: DateTime): string
  {
    "outputs/new_generation/generate_" + Format(t) + ".png"
  }

  lemma NoSlashInTimestamp(t: DateTime)
    ensures '/' !in Format(t)
  {
    FormatCharacters(t);
  }

  /** A path whose last component holds no `/` has the text before that `/` as its directory,
      less any further trailing `/`s. */
  lemma DirnameOfJoin(dir: string, tail: string)
    requires '/' !in tail && exists i :: 0 <= i < |dir| && dir[i] != '/'
    ensures Dirname(dir + ['/'] + tail) == StripTrailing(dir + ['/'], '/')
  {
    var p := dir + ['/'] + tail;
    AfterLastOfJoin(dir, '/', tail);
    var head := p[..|p| - |tail|];
    assert head == dir + ['/'];
    var i :| 0 <= i < |dir| && dir[i] != '/';
    assert head[i] != '/';
  }

  /** The directory `os.makedirs` creates for an editing save is `outputs/<stem>`
      (just `outputs` when the stem is empty, as for an input named `.png`). */
  lemma EditPathDirectory(filePath: string, t: DateTime)
    ensures Dirname(EditPath(filePath, t)) == if Stem(filePath) == "" then "outputs" else "outputs/" + Stem(filePath)
  {
    NoSlashInTimestamp(t);
    EditNameDirectory(Stem(filePath), Format(t));
  }

  /** The same for any slash-free stem and timestamp text. */
  lemma EditNameDirectory(stem: string, ts: string)
    requires '/' !in stem && '/' !in ts
    ensures Dirname("outputs/" + stem + "/" + stem + "_" + ts + ".png") == if stem == "" then "outputs" else "outputs/" + stem
  {
    var dir := "outputs/" + stem;
    var tail := stem + "_" + ts + ".png";
    assert "outputs/" + stem + "/" + stem + "_" + ts + ".png" == dir + ['/'] + tail;
    assert dir[0] == 'o';
    DirnameOfJoin(dir, tail);
    if stem == "" {
      DoubleSlash();
    } else {
      assert dir[|dir| - 1] == stem[|stem| - 1];
      StripOneTrailing(dir, '/');
    }
  }

  /** `outputs//` less its trailing slashes is `outputs`. */
  lemma DoubleSlash()
    ensures StripTrailing("outputs/" + "" + ['/'], '/') == "outputs"
  {
    var twice := "outputs/" + "" + ['/'];
    assert twice[..|twice| - 1] == "outputs" + ['/'];
    assert StripTrailing(twice, '/') == StripTrailing("outputs" + ['/'], '/');
    assert "outputs"[|"outputs"| - 1] == 's';
    StripOneTrailing("outputs", '/');
  }

  /** The directory created for a generation save is always `outputs/new_generation`. */
  lemma GenerationPathDirectory(t: DateTime)
    ensures Dirname(GenerationPath(t)) == "outputs/new_generation"
  {
    NoSlashInTimestamp(t);
    GenerationNameDirectory(Format(t));
  }

  /** The same for any slash-free timestamp text. */
  lemma GenerationNameDirectory(ts: string)
    requires '/' !in ts
    ensures Dirname("outputs/new_generation/generate_" + ts + ".png") == "outputs/new_generation"
  {
    var dir := "outputs/new_generation";
    var tail := "generate_" + ts + ".png";
    assert "outputs/new_generation/generate_" + ts + ".png" == dir + ['/'] + tail;
    assert '/' !in tail;
    assert dir[0] == 'o';
    DirnameOfJoin(dir, tail);
    StripOneTrailing(dir, '/');
  }

  /** Where the stem and the timestamp sit in an editing path. */
  lemma EditPathPieces(stem: string, ts: string)
    ensures var s := "outputs/" + stem + "/" + stem + "_" + ts + ".png";
      && |s| == 2 * |stem| + |ts| + 14
      && s[8..8 + |stem|] == stem
      && s[|s| - 4 - |ts|..|s| - 4] == ts
  {
    var s := "outputs/" + stem + "/" + stem + "_" + ts + ".png";
    var x := "outputs/" + stem;
    assert s == x + ("/" + stem + "_" + ts + ".png");
    assert x[8..] == stem;
    var y := "outputs/" + stem + "/" + stem + "_";
    assert s == y + ts + ".png";
  }

  /** Two editing saves go to the same file exactly when the inputs share a stem and the saves
      fall in the same second: there is no de-duplication, the later save overwrites. */
  lemma EditPathCollision(p1: string, t1: DateTime, p2: string, t2: DateTime)
    ensures EditPath(p1, t1) == EditPath(p2, t2) <==> Stem(p1) == Stem(p2) && t1 == t2
  {
    if EditPath(p1, t1) == EditPath(p2, t2) {
      FormatLayout(t1);
      FormatLayout(t2);
      EditPathPieces(Stem(p1), Format(t1));
      EditPathPieces(Stem(p2), Format(t2));
      FormatInjective(t1, t2);
    }
  }

  /** Two generation saves go to the same file exactly when they fall in the same second. */
  lemma GenerationPathCollision(t1: DateTime, t2: DateTime)
    ensures GenerationPath(t1) == GenerationPath(t2) <==> t1 == t2
  {
    var s1, s2 := GenerationPath(t1), GenerationPath(t2);
    if s1 == s2 {
      FormatLayout(t1);
      FormatLayout(t2);
      assert s1[32..51] == Format(t1);
      assert s2[32..51] == Format(t2);
      FormatInjective(t1, t2);
    }
  }

  /** An input `<dir>/<name>.<ext>` is saved as `outputs/<name>/<name>_<ts>.png`; for the
      documented example `inputs/sample1.png` that is `outputs/sample1/sample1_<ts>.png`. */
  lemma EditPathOfFile(dir: string, name: string, ext: string, t: DateTime)
    requires '/' !in name && '.' !in name && '/' !in ext
    ensures Stem(dir + "/" + name + "." + ext) == name
    ensures EditPath(dir + "/" + name + "." + ext, t) == "outputs/" + name + "/" + name + "_" + Format(t) + ".png"
  {
    var base := name + "." + ext;
    assert dir + "/" + name + "." + ext == dir + ['/'] + base;
    AfterLastOfJoin(dir, '/', base);
    assert base == name + ['.'] + ext;
    BeforeFirstOfJoin(name, '.', ext);
  }
}
