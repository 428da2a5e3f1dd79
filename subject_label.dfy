/** The metric label of a certificate: the RFC 4514 string form of its subject with
    every "CN=" removed, the way Python's `str.replace(old, "")` removes it: the string
    is scanned from the left, each occurrence found is dropped and the scan resumes
    right after it, so occurrences never overlap and text that only comes together
    after a removal is left alone. */
module SubjectLabel {

  const CommonNameTag: string := "CN="

  /** `p` occurs in `s` starting at index `i`. */
  predicate OccursAt(s: string, p: string, i: int)
  {
    0 <= i && i + |p| <= |s| && s[i..i + |p|] == p
  }

  predicate Occurs(s: string, p: string)
  {
    exists i :: 0 <= i <= |s| && OccursAt(s, p, i)
  }

  /** Python's `s.replace(p, "")` for a non-empty `p`, one character at a time. */
  function RemoveAll(s: string, p: string): (r: string)
    requires p != []
    ensures |r| <= |s|
    ensures |s| >= |p| && s[..|p|] == p ==> |r| <= |s| - |p|
    decreases |s|
  {
    if |s| < |p| then s
    else if s[..|p|] == p then RemoveAll(s[|p|..], p)
    else [s[0]] + RemoveAll(s[1..], p)
  }

  /** The label under which both gauges record a certificate: shorter than the subject
      exactly when the subject contains "CN=". */
  function CertificateName(rfc4514Subject: string): (name: string)
    ensures |name| <= |rfc4514Subject|
    ensures |name| < |rfc4514Subject| <==> Occurs(rfc4514Subject, CommonNameTag)
  {
    RemoveAllShortens(rfc4514Subject, CommonNameTag);
    RemoveAll(rfc4514Subject, CommonNameTag)
  }

  /** Occurrences in the tail of `s` are those in `s` shifted by one. */
  lemma OccursAtTail(s: string, p: string, j: int)
    requires s != [] && 0 <= j
    ensures OccursAt(s[1..], p, j) <==> OccursAt(s, p, j + 1)
  {
    if 0 <= j && j + |p| <= |s| - 1 {
      assert s[1..][j..j + |p|] == s[j + 1..j + 1 + |p|];
    }
  }

  /** A string in which `p` does not occur comes back unchanged. */
  lemma {:induction false} RemoveAllWithoutOccurrence(s: string, p: string)
    requires p != []
    requires !Occurs(s, p)
    ensures RemoveAll(s, p) == s
  {
    if |s| >= |p| {
      assert !OccursAt(s, p, 0);
      assert s[..|p|] != p;
      forall i | 0 <= i <= |s[1..]| ensures !OccursAt(s[1..], p, i) {
        OccursAtTail(s, p, i);
      }
      RemoveAllWithoutOccurrence(s[1..], p);
      assert s == [s[0]] + s[1..];
    }
  }

  /** Where `p` does not start the string, its first character is kept. */
  lemma RemoveAllKeepsHead(s: string, p: string)
    requires p != [] && s != []
    requires !OccursAt(s, p, 0)
    ensures RemoveAll(s, p) == [s[0]] + RemoveAll(s[1..], p)
  {
    if |s| < |p| {
      RemoveAllWithoutOccurrence(s[1..], p) by {
        forall i | 0 <= i <= |s[1..]| ensures !OccursAt(s[1..], p, i) {
        }
      }
    }
  }

  /** No occurrence of `p` starts in `s` at an index from `k` up to, not including, `i`. */
  predicate NoneBetween(s: string, p: string, k: int, i: int)
  {
    forall j :: k <= j < i ==> !OccursAt(s, p, j)
  }

  /** One step of the scan from index `k`: the character there is kept. */
  lemma RemoveAllStep(s: string, p: string, k: nat)
    requires p != [] && k < |s| && !OccursAt(s, p, k)
    ensures RemoveAll(s[k..], p) == [s[k]] + RemoveAll(s[k + 1..], p)
  {
    var u := s[k..];
    assert u[0] == s[k];
    assert u[1..] == s[k + 1..];
    forall j | 0 <= j ensures OccursAt(u, p, j) <==> OccursAt(s, p, k + j) {
      if 0 <= j && j + |p| <= |u| {
        assert u[j..j + |p|] == s[k + j..k + j + |p|];
      }
    }
    RemoveAllKeepsHead(u, p);
  }

  /** An occurrence at the start of the scan is dropped. */
  lemma RemoveAllAtStart(s: string, p: string, i: nat)
    requires p != [] && OccursAt(s, p, i)
    ensures RemoveAll(s[i..], p) == RemoveAll(s[i + |p|..], p)
  {
    var u := s[i..];
    assert u[..|p|] == p;
    assert u[|p|..] == s[i + |p|..];
  }

  lemma ConsSlice(s: string, k: nat, i: nat, rest: string)
    requires k < i <= |s|
    ensures [s[k]] + (s[k + 1..i] + rest) == s[k..i] + rest
  {
    assert [s[k]] + s[k + 1..i] == s[k..i];
  }

  /** The scan as Python describes it, from index `k`: find the leftmost occurrence
      `i`, keep what precedes it, drop it, and go on after it. */
  lemma {:induction false} RemoveAllFromLeftmost(s: string, p: string, k: nat, i: nat)
    requires p != [] && k <= i
    requires OccursAt(s, p, i) && NoneBetween(s, p, k, i)
    ensures RemoveAll(s[k..], p) == s[k..i] + RemoveAll(s[i + |p|..], p)
    decreases i - k
  {
    if k == i {
      RemoveAllAtStart(s, p, i);
      assert s[k..i] == [];
    } else {
      RemoveAllStep(s, p, k);
      RemoveAllFromLeftmost(s, p, k + 1, i);
      ConsSlice(s, k, i, RemoveAll(s[i + |p|..], p));
    }
  }

  /** The scan as Python describes it: find the leftmost occurrence, keep what precedes
      it, drop it, and go on with the rest; the characters before the leftmost
      occurrence are kept as they are. */
  lemma RemoveAllAtLeftmost(s: string, p: string, i: nat)
    requires p != []
    requires OccursAt(s, p, i) && NoneBetween(s, p, 0, i)
    ensures RemoveAll(s, p) == s[..i] + RemoveAll(s[i + |p|..], p)
  {
    RemoveAllFromLeftmost(s, p, 0, i);
    assert s[0..] == s;
  }

  /** Removal shortens the string exactly when `p` occurs in it, so a string that
      comes back with its length unchanged contains no `p`. */
  lemma {:induction false} RemoveAllShortens(s: string, p: string)
    requires p != []
    ensures |RemoveAll(s, p)| < |s| <==> Occurs(s, p)
    decreases |s|
  {
    if |s| < |p| {
      assert !Occurs(s, p);
    } else if s[..|p|] == p {
      assert OccursAt(s, p, 0);
    } else {
      var t := s[1..];
      assert !OccursAt(s, p, 0);
      RemoveAllShortens(t, p);
      if Occurs(s, p) {
        var i :| 0 <= i <= |s| && OccursAt(s, p, i);
        OccursAtTail(s, p, i - 1);
        assert OccursAt(t, p, i - 1);
      }
      if Occurs(t, p) {
        var i :| 0 <= i <= |t| && OccursAt(t, p, i);
        OccursAtTail(s, p, i);
        assert OccursAt(s, p, i + 1);
      }
    }
  }

  /** A subject without "CN=" is its own label. */
  lemma CertificateNameWithoutTag(subject: string)
    requires !Occurs(subject, CommonNameTag)
    ensures CertificateName(subject) == subject
  {
    RemoveAllWithoutOccurrence(subject, CommonNameTag);
  }

  /** The usual Certbot subject, "CN=" followed by the domain, is labelled by the domain. */
  lemma CertificateNameOfCommonName(domain: string)
    requires !Occurs(domain, CommonNameTag)
    ensures CertificateName(CommonNameTag + domain) == domain
  {
    assert (CommonNameTag + domain)[..3] == CommonNameTag;
    assert (CommonNameTag + domain)[3..] == domain;
    RemoveAllWithoutOccurrence(domain, CommonNameTag);
  }

  /** Every occurrence goes, not only a leading one: in a subject with several
      attributes the tag is removed wherever it stands, other attribute tags stay. */
  lemma CertificateNameRemovesEveryTag()
    ensures CertificateName("O=x,CN=y") == "O=x,y"
  {
    var s := "O=x,CN=y";
    assert s[4..7] == CommonNameTag;
    forall j | 0 <= j < 4 ensures !OccursAt(s, CommonNameTag, j) {
      assert s[j..j + 3][2] == s[j + 2] != '=';
    }
    RemoveAllAtLeftmost(s, CommonNameTag, 4);
    assert s[7..] == "y";
    assert s[..4] + "y" == "O=x,y";
  }

  /** The removal is one left-to-right pass: a tag that only forms once an inner one
      is gone survives, so applying the label function twice can change the label. */
  lemma CertificateNameNotIdempotent()
    ensures CertificateName("CNCN==") == "CN="
    ensures CertificateName("CN=") == ""
  {
    var s := "CNCN==";
    assert s[..3] == "CNC" && s[1..][..3] == "NCN";
    assert s[1..][1..][..3] == CommonNameTag;
    assert s[1..][1..][3..] == "=";
    assert "CN="[..3] == CommonNameTag;
  }
}
