/**
 * URL attachment (`getImages` after the response has arrived): every icon's `image` field is set
 * from the response's id-to-URL map, in place, in list order.
 */
module ImageResolver {
  import opened Wrappers
  import opened Figma

  /** `images[id]`: the URL the response gives for an id, absent when it gives none. */
  function ImageFor(images: map<string, string>, id: string): Option<string>
  {
    if id in images then Some(images[id]) else None
  }

  /** The icon list once every icon's `image` has been looked up. */
  function WithImages(icons: seq<Icon>, images: map<string, string>): (r: seq<Icon>)
    ensures |r| == |icons|
    ensures forall i :: 0 <= i < |icons| ==>
      && r[i].id == icons[i].id
      && r[i].name == icons[i].name
      && r[i].image == ImageFor(images, icons[i].id)
  {
    if icons == [] then []
    else [icons[0].(image := ImageFor(images, icons[0].id))] + WithImages(icons[1..], images)
  }

  /** Attaching URLs to concatenated page lists is attaching them page by page. */
  lemma {:induction false} WithImagesAppend(a: seq<Icon>, b: seq<Icon>, images: map<string, string>)
    ensures WithImages(a + b, images) == WithImages(a, images) + WithImages(b, images)
  {
    var l, r := WithImages(a + b, images), WithImages(a, images) + WithImages(b, images);
    assert |l| == |r|;
    forall i | 0 <= i < |l|
      ensures l[i] == r[i]
    {
      if i < |a| {
        assert (a + b)[i] == a[i];
      } else {
        assert (a + b)[i] == b[i - |a|];
      }
    }
  }

  /** `icons.forEach(icon => { icon.image = images[icon.id]; })`. */
  method GetImages(icons: array<Icon>, images: map<string, string>)
    modifies icons
    ensures icons[..] == WithImages(old(icons[..]), images)
  {
    for i := 0 to icons.Length
      invariant forall k :: 0 <= k < i ==> icons[k] == old(icons[k]).(image := ImageFor(images, old(icons[k]).id))
      invariant forall k :: i <= k < icons.Length ==> icons[k] == old(icons[k])
    {
      icons[i] := icons[i].(image := ImageFor(images, icons[i].id));
    }
  }
}
