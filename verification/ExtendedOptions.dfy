/** Merging of `angularCompilerOptions` along the `extends` entries of configuration files. */
module ExtendedOptions {
  import opened Wrappers

  type Options = map<string, string>

  /**
   * What an `extends` entry stands for: nothing when its path does not resolve, a file that
   * cannot be read, or a file with options and `extends` entries of its own, in the order written.
   */
  datatype Config = Unresolved | Unreadable | Config(ngOptions: Options, extendsConfigs: seq<Config>)

  /** `readAngularCompilerOptions`: options already collected win over those of the file. */
  function ReadAngularCompilerOptions(c: Config, parentOptions: Options): Options
    decreases c, 1
  {
    if !c.Config? then parentOptions
    else ReadExtends(c.extendsConfigs, c.ngOptions + parentOptions)
  }

  /** The fold over the reversed `extends` entries. */
  function ReadExtends(cs: seq<Config>, prevOptions: Options): Options
    decreases cs, 0
  {
    if cs == [] then prevOptions
    else
      var last := cs[|cs| - 1];
      ReadExtends(cs[..|cs| - 1],
                  if last.Unresolved? then prevOptions else ReadAngularCompilerOptions(last, prevOptions))
  }

  /**
   * The options of a project: `existingOptions` of the caller win over everything, the base path
   * yields to everything. There are none when the project file itself cannot be read.
   */
  function CompilerOptions(c: Config, basePath: Options, existingOptions: Options): Options {
    if !c.Config? then map[]
    else basePath + ReadAngularCompilerOptions(c, map[]) + existingOptions
  }

  // ---------- The first file that defines an option ----------

  /** The options of all readable files: a file before what it extends, `extends` right to left. */
  function Preorder(c: Config): seq<Options>
    decreases c, 1
  {
    if !c.Config? then [] else [c.ngOptions] + PreorderExtends(c.extendsConfigs)
  }

  function PreorderExtends(cs: seq<Config>): seq<Options>
    decreases cs, 0
  {
    if cs == [] then []
    else
      Preorder(cs[|cs| - 1]) + PreorderExtends(cs[..|cs| - 1])
  }

  function Lookup(m: Options, k: string): Option<string> {
    if k in m then Some(m[k]) else None
  }

  /** The value in the first of the maps that defines the option. */
  function FirstOf(ms: seq<Options>, k: string): Option<string> {
    if ms == [] then None
    else if k in ms[0] then Some(ms[0][k])
    else FirstOf(ms[1..], k)
  }

  lemma {:induction false} FirstOfAppend(a: seq<Options>, b: seq<Options>, k: string)
    ensures FirstOf(a + b, k) == if FirstOf(a, k).Some? then FirstOf(a, k) else FirstOf(b, k)
  {
    if a == [] {
      assert a + b == b;
    } else {
      assert (a + b)[1..] == a[1..] + b;
      FirstOfAppend(a[1..], b, k);
    }
  }

  function OrElse(a: Option<string>, b: Option<string>): Option<string> {
    if a.Some? then a else b
  }

  lemma {:induction false} ReadIsFirst(c: Config, opts: Options, k: string)
    ensures Lookup(ReadAngularCompilerOptions(c, opts), k) == OrElse(Lookup(opts, k), FirstOf(Preorder(c), k))
    decreases c, 1
  {
    if c.Config? {
      ReadExtendsIsFirst(c.extendsConfigs, c.ngOptions + opts, k);
      FirstOfAppend([c.ngOptions], PreorderExtends(c.extendsConfigs), k);
    }
  }

  lemma {:induction false} ReadExtendsIsFirst(cs: seq<Config>, opts: Options, k: string)
    ensures Lookup(ReadExtends(cs, opts), k) == OrElse(Lookup(opts, k), FirstOf(PreorderExtends(cs), k))
    decreases cs, 0
  {
    if cs != [] {
      var last := cs[|cs| - 1];
      ReadIsFirst(last, opts, k);
      ReadExtendsIsFirst(cs[..|cs| - 1], if last.Unresolved? then opts else ReadAngularCompilerOptions(last, opts), k);
      FirstOfAppend(Preorder(last), PreorderExtends(cs[..|cs| - 1]), k);
    }
  }

  /**
   * Every option has the caller's value, else that of the first file defining it in preorder,
   * else the default; without a readable project file there are no options.
   */
  lemma OptionsAreFirstDefined(c: Config, basePath: Options, existingOptions: Options, k: string)
    ensures Lookup(CompilerOptions(c, basePath, existingOptions), k)
         == if c.Config? then FirstOf([existingOptions] + Preorder(c) + [basePath], k) else None
  {
    if c.Config? {
      ReadIsFirst(c, map[], k);
      FirstOfAppend([existingOptions] + Preorder(c), [basePath], k);
      FirstOfAppend([existingOptions], Preorder(c), k);
    }
  }
}
