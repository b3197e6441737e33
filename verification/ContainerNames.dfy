/** The names inside an import directory that publication and listing agree on. */
module ContainerNames {
  const CONTAINER_PREFIX: string := ".mm-archive-"
  const MARKER_PREFIX: string := ".mm-complete-"
  const PAYLOAD: string := "payload"

  function ContainerName(digest: string): string {
    CONTAINER_PREFIX + digest
  }
}
