/**
 * The `grep` subcommand of src/subcommands/grep.rs, a near copy of src/grep.rs
 * whose `run` belongs to the `RunCommand` interface of the command line.
 * Each search walks `contents.lines()` and pushes every matching line onto
 * a growing result vector.
 */
module SubcommandsGrep {
  import opened GrepLines
  import GrepSamples

  /** The command-line arguments: what to look for, where, and whether case matters. */
  datatype GrepArgs = GrepArgs(query: string, filePath: string, ignoreCase: bool)
  {
    /** The lines of contents that contain query, in order. */
    method Search(contents: string) returns (results: seq<string>)
      ensures results == Selected(Lines(contents), query, false)
    {
      var lines := Lines(contents);
      results := [];
      for i := 0 to |lines|
        invariant results == Selected(lines[..i], query, false)
      {
        assert lines[..i + 1][..i] == lines[..i];
        if Contains(lines[i], query) {
          results := results + [lines[i]];
        }
      }
      assert lines[..|lines|] == lines;
    }

    /** The lines of contents whose lower-cased form contains the lower-cased query, unchanged and in order. */
    method SearchCaseInsensitive(contents: string) returns (results: seq<string>)
      ensures results == Selected(Lines(contents), query, true)
    {
      var lowered := Lower(query);
      var lines := Lines(contents);
      results := [];
      for i := 0 to |lines|
        invariant results == Selected(lines[..i], query, true)
      {
        assert lines[..i + 1][..i] == lines[..i];
        if Contains(Lower(lines[i]), lowered) {
          results := results + [lines[i]];
        }
      }
      assert lines[..|lines|] == lines;
    }

    /**
     * What `run` prints, one entry per line, given the text of the file:
     * the case-insensitive search when ignoreCase is set, otherwise the plain one.
     */
    method Run(contents: string) returns (printed: seq<string>)
      ensures printed == Selected(Lines(contents), query, ignoreCase)
    {
      if ignoreCase {
        printed := SearchCaseInsensitive(contents);
      } else {
        printed := Search(contents);
      }
    }
  }

  /** The `case_sensitive` unit test: only "safe, fast, productive." contains "duct". */
  method CaseSensitive() returns (results: seq<string>)
    ensures results == ["safe, fast, productive."]
  {
    var args := GrepArgs("duct", "", false);
    results := args.Search(GrepSamples.DuctTape);
    GrepSamples.DuctSearch();
  }

  /**
   * The `case_insensitive` unit test. The arguments say ignoreCase is false,
   * but the test calls SearchCaseInsensitive directly, so case is ignored.
   */
  method CaseInsensitive() returns (results: seq<string>)
    ensures results == ["Rust:", "Trust me."]
  {
    var args := GrepArgs("rUsT", "", false);
    results := args.SearchCaseInsensitive(GrepSamples.TrustMe);
    GrepSamples.RustSearch();
  }
}
