/** The values the pipeline passes around. */
module Records {

  /**
   * One row of the candidate query (`applications` LEFT JOIN `personal_info`).
   * A NULL name column (no `personal_info` row) reads as the empty string,
   * which is what `sprintf` makes of it.
   */
  datatype Applicant = Applicant(
    userId: nat,
    resumeFile: string,
    givenName: string,
    additionalName: string,
    familyName: string)

  /** One row of the local `applicants` table: the ledger of processed applicants. */
  datatype Entry = Entry(id: nat, path: string, sent: bool)

  /** One `getObject` request to the object store: bucket, key and the `SaveAs` target. */
  datatype Download = Download(bucket: string, key: string, saveAs: string)

  /** The loop in `fire` handles a row only when `$row['resume_file'] > ''`, that is, when it is not empty. */
  predicate HasResume(a: Applicant) {
    a.resumeFile != ""
  }
}
