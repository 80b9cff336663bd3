/**
 * The records the launcher passes around: catalogue rows served by the API and
 * the entries of the installed-games list built from the apps directory.
 */
module Catalog {
  import opened Common

  /**
   * A row of the `games` table as `/api/games` serves it (`id`, `name`, `cover_url`,
   * `download_url`). A missing name reads as the empty string, which the normalisers
   * treat the same way; a missing cover is `None`.
   */
  datatype Game = Game(id: nat, name: string, coverUrl: Option<string>, downloadUrl: string)

  /** An entry of the installed list: a directory name under the apps directory and the first image found below it. */
  datatype InstalledGame = InstalledGame(name: string, cover: Option<string>)
}
