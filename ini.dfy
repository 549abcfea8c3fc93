/** The rewrite applied to the copied php.ini: every commented-out
    `;extension_dir = "ext"` directive is enabled by dropping its leading
    semicolon. */
module IniFile {
  import opened Strings

  /** The directive as php.ini-development ships it, commented out. */
  const CommentedExtensionDir: string := ";extension_dir = \"ext\""

  /** The same directive, enabled. */
  const ExtensionDir: string := "extension_dir = \"ext\""

  /** `phpIni.replace(/;extension_dir = "ext"/g, 'extension_dir = "ext"')`;
      the pattern has no regular-expression metacharacters, so it matches
      literally. */
  function EnableExtensionDir(ini: string): string
  {
    ReplaceAll(ini, CommentedExtensionDir, ExtensionDir)
  }

  /** The number of directives the rewrite enables. */
  function Occurrences(ini: string): nat
  {
    |Split(ini, CommentedExtensionDir)| - 1
  }

  /** The rewrite cuts the file at the leftmost non-overlapping occurrences
      of the commented directive: the file is its pieces joined by the
      commented directive, the result is the same pieces joined by the
      enabled one (so exactly one semicolon goes per occurrence and all
      other text stays), no piece holds the directive, and no occurrence
      starts inside a piece and runs into the cut that follows it. */
  lemma EnableExtensionDirPieces(ini: string)
    ensures CommentedExtensionDir == [';'] + ExtensionDir
    ensures var pieces := Split(ini, CommentedExtensionDir);
      && ini == Join(pieces, CommentedExtensionDir)
      && EnableExtensionDir(ini) == Join(pieces, ExtensionDir)
      && (forall k :: 0 <= k < |pieces| ==> !Contains(pieces[k], CommentedExtensionDir))
      && (forall k :: 0 <= k < |pieces| - 1 ==> !Contains(pieces[k] + CommentedExtensionDir[..|ExtensionDir|], CommentedExtensionDir))
  {
    SplitJoin(ini, CommentedExtensionDir);
    ReplaceAllIsSplitJoin(ini, CommentedExtensionDir, ExtensionDir);
    SplitPiecesFree(ini, CommentedExtensionDir);
    SplitLeftmost(ini, CommentedExtensionDir);
  }

  /** One character goes per enabled directive. */
  lemma EnableExtensionDirLength(ini: string)
    ensures |EnableExtensionDir(ini)| == |ini| - Occurrences(ini)
  {
    SplitJoin(ini, CommentedExtensionDir);
    ReplaceAllIsSplitJoin(ini, CommentedExtensionDir, ExtensionDir);
    JoinLengths(Split(ini, CommentedExtensionDir), ExtensionDir, CommentedExtensionDir);
  }

  /** A file is left as it is exactly when it holds no commented directive. */
  lemma EnableExtensionDirUnchangedIff(ini: string)
    ensures EnableExtensionDir(ini) == ini <==> !Contains(ini, CommentedExtensionDir)
  {
    ReplaceAllUnchangedIff(ini, CommentedExtensionDir, ExtensionDir);
  }

  /** The rewrite is a single pass, not a fixed point: a doubled semicolon
      loses only one of its two, and the output still holds the commented
      directive. */
  lemma EnableExtensionDirSinglePass()
    ensures var ini := ";" + CommentedExtensionDir;
      && EnableExtensionDir(ini) == CommentedExtensionDir
      && EnableExtensionDir(EnableExtensionDir(ini)) != EnableExtensionDir(ini)
  {
    assert CommentedExtensionDir == [';'] + ExtensionDir;
    ReplaceAllOnePass(';', ExtensionDir);
  }
}
