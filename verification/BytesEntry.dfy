/** The byte entry of the chain verifier, under either profile. */
module BytesEntry {
  import opened Prelude
  import opened Json
  import opened StrictBytes
  import opened Verify

  /** The byte entry: the gate, then the verifier on the admitted tree. */
  ghost function BytesVerdict(env: Env, data: bytes, keyring: Option<Value>, identity: Option<Value>,
                              checkpoint: Option<Value>, profile: string): (Status, seq<Warning>) {
    if Admits(data, profile).None? then (MALFORMED, [])
    else Verdict(env, Admits(data, profile), keyring, identity, checkpoint)
  }

  /**
   * Where strict-bytes admits an input the verdict and warnings are the native ones, and any native
   * input has a strict-bytes spelling, its own canonical form, with the same verdict.
   */
  lemma StrictVerdictIsNative(env: Env, data: bytes, v: Value, keyring: Option<Value>, identity: Option<Value>,
                              checkpoint: Option<Value>)
    ensures Admits(data, STRICT).Some? ==>
              BytesVerdict(env, data, keyring, identity, checkpoint, STRICT)
                  == BytesVerdict(env, data, keyring, identity, checkpoint, NATIVE)
    ensures Admits(data, NATIVE) == Some(v) ==>
              BytesVerdict(env, Print(v), keyring, identity, checkpoint, STRICT)
                  == BytesVerdict(env, data, keyring, identity, checkpoint, NATIVE)
  {
    hide Admits, Verdict, Print;
    StrictUnique(data, data, v);
  }
}
