/** The record `git blame --incremental` output is parsed into; `u32` and `u64` fields are `nat`. */
module BlameTypes {

  /** One blamed range of lines, attributed to a commit. */
  datatype BlameEntry = BlameEntry(
    sha: string,
    shortSha: string,
    origLine: nat,
    finalLine: nat,
    numLines: nat,
    authorName: string,
    authorEmail: string,
    authorDate: nat,
    committerName: string,
    committerEmail: string,
    committerDate: nat,
    summary: string,
    filename: string)
}
