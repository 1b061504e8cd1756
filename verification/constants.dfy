/** Fixed names and limits of the batch splitter. */
module Constants {

  /** Names of operating-system artefacts that are matched exactly (case-sensitively). */
  const UnwantedFiles: seq<string> := [".ds_store", "thumbs.db", ".localized", ".spotlight-v100", ".trashes"]

  /** Upper bound on generated names (`MAX_FILENAME_LENGTH`). */
  const MaxFilenameLength: nat := 100

  /** The group and subfolder name used for files directly under the input root. */
  const RootGroup: string := "root"
}
